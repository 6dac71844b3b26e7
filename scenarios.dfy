/**
 * Concrete requests against small stores, under a host whose entity
 * decoding and tag stripping leave text unchanged, whose `\s` is the ASCII
 * whitespace set, and whose content filter wraps the body in a `div`.
 * Each fact is its own small lemma, so that the verifier evaluates one
 * step at a time.
 */
module Scenarios {
  import opened Runtime
  import opened Store
  import opened PlainText
  import opened ArticleApi

  predicate AsciiSpace(c: char) {
    c == ' ' || c == '\t' || c == '\n' || c == '\r' || c == '\U{000B}' || c == '\U{000C}'
  }

  const PlainHost: Host := Host(
    s => s,
    s => s,
    s => true,
    AsciiSpace,
    s => "<div>" + s + "</div>")

  function Article(id: int, slug: string, title: string): Post {
    Post(id, slug, "post", "publish", 7, Str(title), "<p>Body</p>")
  }

  function VolumePost(id: int, title: string): Post {
    Post(id, "vol", VOLUME_TYPE, "publish", 7, Str(title), "")
  }

  /** `n` ASCII spaces. */
  function Spaces(n: nat): string {
    if n == 0 then "" else " " + Spaces(n - 1)
  }

  // ---------------------------------------------------------------------------
  // The normaliser under the plain host
  // ---------------------------------------------------------------------------

  lemma PlainNormalize(w: string)
    ensures Normalize(PlainHost, Str(w)) == CollapseTrim(AsciiSpace, w)
  {
    assert PlainHost.entityDecode(w) == w;
    assert PlainHost.stripAllTags(w) == w;
    assert PlainHost.acceptsUtf8(w);
    assert PlainHost.isSpace == AsciiSpace;
  }

  /** A word: no character of it is whitespace or a trim character. */
  predicate Word(w: string) {
    w == [] || (!AsciiSpace(w[0]) && !IsTrimChar(w[0]) && Word(w[1..]))
  }

  lemma {:induction false} WordIsClean(w: string)
    requires Word(w)
    ensures Clean(AsciiSpace, w)
    ensures forall k :: 0 <= k < |w| ==> !AsciiSpace(w[k])
  {
    if w != [] {
      WordIsClean(w[1..]);
      forall k | 1 <= k < |w|
        ensures !AsciiSpace(w[k])
      {
        assert w[k] == w[1..][k - 1];
      }
    }
  }

  /** Under any host whose `\s` is ASCII whitespace, a string that decodes and strips to a word normalises to that word. */
  lemma DecodedWord(host: Host, s: string, w: string)
    requires host.isSpace == AsciiSpace
    requires host.stripAllTags(host.entityDecode(s)) == w && host.acceptsUtf8(w)
    requires Word(w)
    ensures Normalize(host, Str(s)) == w
  {
    var sp := host.isSpace;
    assert Normalize(host, Str(s)) == CollapseTrim(sp, w);
    assert Clean(sp, w) by {
      WordIsClean(w);
    }
    CollapseTrimFixpoint(sp, w);
  }

  /** The plain host leaves a word unchanged. */
  lemma CleanIsKept(w: string)
    requires Word(w)
    ensures Normalize(PlainHost, Str(w)) == w
  {
    WordIsClean(w);
    PlainNormalize(w);
    CollapseTrimFixpoint(AsciiSpace, w);
  }

  lemma CollapseStepWord(c: char, s: string)
    requires !AsciiSpace(c)
    ensures Collapse(AsciiSpace, [c] + s) == [c] + Collapse(AsciiSpace, s)
  {
    assert ([c] + s)[0] == c && ([c] + s)[1..] == s;
  }

  /** Collapsing passes a word of non-space characters through. */
  lemma {:induction false} CollapseWord(w: string, rest: string)
    requires forall k :: 0 <= k < |w| ==> !AsciiSpace(w[k])
    ensures Collapse(AsciiSpace, w + rest) == w + Collapse(AsciiSpace, rest)
  {
    if w != [] {
      assert w + rest == [w[0]] + (w[1..] + rest);
      CollapseStepWord(w[0], w[1..] + rest);
      CollapseWord(w[1..], rest);
      assert [w[0]] + (w[1..] + Collapse(AsciiSpace, rest)) == w + Collapse(AsciiSpace, rest);
    } else {
      assert w + rest == rest;
    }
  }

  /** `Spaces(n)` is `n` characters, all ' '. */
  lemma {:induction false} SpacesAreSpaces(n: nat)
    ensures |Spaces(n)| == n && forall k :: 0 <= k < n ==> Spaces(n)[k] == ' '
  {
    if n > 0 {
      SpacesAreSpaces(n - 1);
      assert Spaces(n) == " " + Spaces(n - 1);
    }
  }

  /** Collapsing turns a run of spaces in front of `rest` into one space. */
  lemma CollapseRun(n: nat, rest: string)
    requires rest == [] || !AsciiSpace(rest[0])
    ensures Collapse(AsciiSpace, Spaces(n + 1) + rest) == " " + Collapse(AsciiSpace, rest)
  {
    SpacesAreSpaces(n + 1);
    CollapseOfRun(AsciiSpace, Spaces(n + 1), rest);
  }

  lemma TrimOneSpaceEachEnd(w: string)
    requires w != [] && !IsTrimChar(w[0]) && !IsTrimChar(w[|w| - 1])
    ensures Trim(" " + w + " ") == w
  {
    var s := " " + w + " ";
    assert s[1..] == w + " ";
    assert TrimLeft(w + " ") == w + " ";
    assert (w + " ")[..|w|] == w;
    assert TrimRight(w) == w;
  }

  /** Collapsing the tail `b + "  "` of a padded title, for a word `b`. */
  lemma PaddedTail(b: string)
    requires Word(b)
    ensures Collapse(AsciiSpace, b + (Spaces(1 + 1) + "")) == b + " "
  {
    WordIsClean(b);
    CollapseRun(1, "");
    assert Collapse(AsciiSpace, "") == "";
    CollapseWord(b, Spaces(1 + 1) + "");
  }

  /** Collapsing `"   " + b + "  "`, for a non-empty word `b`. */
  lemma PaddedMiddle(b: string)
    requires Word(b) && b != []
    ensures Collapse(AsciiSpace, Spaces(2 + 1) + (b + (Spaces(1 + 1) + ""))) == " " + (b + " ")
  {
    var y := b + (Spaces(1 + 1) + "");
    assert y[0] == b[0];
    CollapseRun(2, y);
    PaddedTail(b);
  }

  /** Collapsing `"  " + a + "   " + b + "  "`, written right-nested, for non-empty words `a` and `b`. */
  lemma PaddedNested(a: string, b: string)
    requires Word(a) && Word(b) && a != [] && b != []
    ensures Collapse(AsciiSpace, Spaces(1 + 1) + (a + (Spaces(2 + 1) + (b + (Spaces(1 + 1) + "")))))
            == " " + (a + (" " + (b + " ")))
  {
    WordIsClean(a);
    var z := Spaces(2 + 1) + (b + (Spaces(1 + 1) + ""));
    PaddedMiddle(b);
    CollapseWord(a, z);
    var x := a + z;
    assert x[0] == a[0];
    CollapseRun(1, x);
  }

  /** The padded title, regrouped to the right the way the collapse consumes it. */
  lemma PaddedShape(a: string, b: string)
    ensures Spaces(2) + a + Spaces(3) + b + Spaces(2)
            == Spaces(1 + 1) + (a + (Spaces(2 + 1) + (b + (Spaces(1 + 1) + ""))))
  {
  }

  /** The collapsed title, regrouped as one space, the joined words and one space. */
  lemma JoinedShape(a: string, b: string)
    ensures " " + (a + (" " + (b + " "))) == " " + (a + " " + b) + " "
  {
  }

  /** Collapsing `"  " + a + "   " + b + "  "`, for non-empty words `a` and `b`. */
  lemma PaddedCollapse(a: string, b: string)
    requires Word(a) && Word(b) && a != [] && b != []
    ensures Collapse(AsciiSpace, Spaces(2) + a + Spaces(3) + b + Spaces(2)) == " " + (a + " " + b) + " "
  {
    PaddedShape(a, b);
    PaddedNested(a, b);
    JoinedShape(a, b);
  }

  /** Trimming `" " + (a + " " + b) + " "`, for non-empty words `a` and `b`. */
  lemma PaddedTrim(a: string, b: string)
    requires Word(a) && Word(b) && a != [] && b != []
    ensures Trim(" " + (a + " " + b) + " ") == a + " " + b
  {
    WordIsClean(b);
    var w := a + " " + b;
    assert w[0] == a[0];
    assert w[|w| - 1] == b[|b| - 1];
    TrimOneSpaceEachEnd(w);
  }

  /** Two words padded with runs of spaces normalise to the words joined by one space. */
  lemma PaddedWordsNormalize(a: string, b: string)
    requires Word(a) && Word(b) && a != [] && b != []
    ensures Normalize(PlainHost, Str(Spaces(2) + a + Spaces(3) + b + Spaces(2))) == a + " " + b
  {
    var s := Spaces(2) + a + Spaces(3) + b + Spaces(2);
    PlainNormalize(s);
    assert CollapseTrim(AsciiSpace, s) == Trim(Collapse(AsciiSpace, s));
    PaddedCollapse(a, b);
    PaddedTrim(a, b);
  }

  lemma HelloWorld()
    ensures "Hello" + " " + "World" == "Hello World"
  {
  }

  /** "  Hello   World  " normalises to "Hello World". */
  lemma PaddedTitleNormalizes()
    ensures Normalize(PlainHost, Str(Spaces(2) + "Hello" + Spaces(3) + "World" + Spaces(2))) == "Hello World"
  {
    PaddedWordsNormalize("Hello", "World");
    HelloWorld();
  }

  // ---------------------------------------------------------------------------
  // Request: "my-article"
  // ---------------------------------------------------------------------------

  function MyArticleStore(): Store {
    Store(
      [Article(42, "my-article", Spaces(2) + "Hello" + Spaces(3) + "World" + Spaces(2))],
      map[7 := Str("Ada")], None, map[], None)
  }

  lemma MyArticleIsFound()
    ensures FindPublishedPostBySlug(MyArticleStore().posts, "my-article") == Some(MyArticleStore().posts[0])
  {
    FindPublishedPostIsFirstMatch(MyArticleStore().posts, "my-article", 0);
  }

  lemma MyArticleAuthor()
    ensures AuthorName(MyArticleStore(), PlainHost, MyArticleStore().posts[0]) == "Ada"
  {
    assert DisplayName(MyArticleStore(), 7) == Str("Ada");
    CleanIsKept("Ada");
  }

  lemma MyArticleHasNoSubtitle()
    ensures Subtitle(MyArticleStore(), PlainHost, 42) == ""
  {
    var store := MyArticleStore();
    assert PostMeta(store, 42, SUBTITLE_KEY) == Str("");
    SubtitleFallsBackToMeta(store, PlainHost, 42);
    PlainNormalize("");
  }

  lemma MyArticleHasNoVolume()
    ensures PrimaryVolumeTitle(MyArticleStore(), PlainHost, 42) == ""
  {
  }

  /**
   * Slug "my-article" names published post 42 with the title
   * "  Hello   World  ", no subtitle and no membership table: the title is
   * normalised, and subtitle and volume are null.
   */
  lemma MyArticleScenario()
    ensures GetPostBySlug(MyArticleStore(), PlainHost, "my-article")
            == Ok(ArticleResponse("Ada", "Hello World", None, "<div><p>Body</p></div>", None))
  {
    MyArticleIsFound();
    MyArticleAuthor();
    MyArticleHasNoSubtitle();
    MyArticleHasNoVolume();
    PaddedTitleNormalizes();
    PlainReply(MyArticleStore(), "my-article", 0, "Ada", "Hello World");
    WrappedBody();
  }

  lemma WrappedBody()
    ensures "<div>" + "<p>Body</p>" + "</div>" == "<div><p>Body</p></div>"
  {
    assert "<div>" + "<p>Body</p>" == "<div><p>Body</p>";
  }

  /**
   * Under the plain host, the reply for a slug whose first published post
   * has no subtitle and no volume is that post's author, title and wrapped
   * content.
   */
  lemma PlainReply(store: Store, slug: string, i: nat, author: string, title: string)
    requires slug != ""
    requires i < |store.posts| && IsPublishedPost(store.posts[i], slug)
    requires forall j :: 0 <= j < i ==> !IsPublishedPost(store.posts[j], slug)
    requires AuthorName(store, PlainHost, store.posts[i]) == author
    requires Normalize(PlainHost, store.posts[i].title) == title
    requires Subtitle(store, PlainHost, store.posts[i].id) == ""
    requires PrimaryVolumeTitle(store, PlainHost, store.posts[i].id) == ""
    ensures GetPostBySlug(store, PlainHost, slug)
            == Ok(ArticleResponse(author, title, None, "<div>" + store.posts[i].content + "</div>", None))
  {
    ResponseComesFromFirstMatch(store, PlainHost, slug, i);
  }

  /** An empty slug is rejected with 400; a draft or a page with the slug is not found (404). */
  lemma RejectedRequests()
    ensures GetPostBySlug(MyArticleStore(), PlainHost, "").status == 400
    ensures GetPostBySlug(Store([Article(1, "a", "T").(status := "draft")], map[], None, map[], None), PlainHost, "a").status == 404
    ensures GetPostBySlug(Store([Article(1, "a", "T").(postType := "page")], map[], None, map[], None), PlainHost, "a").status == 404
  {
  }

  // ---------------------------------------------------------------------------
  // Subtitle precedence
  // ---------------------------------------------------------------------------

  function WithSubtitles(field: Option<string>, meta: Option<string>): Store {
    Store(
      [Article(5, "s", "T")],
      map[],
      Some(if field.Some? then map[(5, SUBTITLE_KEY) := Str(field.value)] else map[]),
      if meta.Some? then map[(5, SUBTITLE_KEY) := Str(meta.value)] else map[],
      None)
  }

  lemma BlankNormalizesToEmpty()
    ensures Normalize(PlainHost, Str(Spaces(2))) == ""
  {
    assert Spaces(2) == Spaces(1 + 1) + "";
    CollapseRun(1, "");
    assert Collapse(AsciiSpace, "") == "";
    assert Trim(" ") == "";
    PlainNormalize(Spaces(2));
  }

  /** The custom field "A" wins over the meta value "B". */
  lemma FieldBeatsMeta()
    ensures Subtitle(WithSubtitles(Some("A"), Some("B")), PlainHost, 5) == "A"
  {
    assert FieldSubtitle(WithSubtitles(Some("A"), Some("B")), 5) == "A";
    CleanIsKept("A");
  }

  /** With no custom field, the meta value "B" is used. */
  lemma MetaAlone()
    ensures Subtitle(WithSubtitles(None, Some("B")), PlainHost, 5) == "B"
  {
    var store := WithSubtitles(None, Some("B"));
    assert PostMeta(store, 5, SUBTITLE_KEY) == Str("B");
    SubtitleFallsBackToMeta(store, PlainHost, 5);
    CleanIsKept("B");
  }

  /** With neither, the subtitle is ''. */
  lemma NoSubtitle()
    ensures Subtitle(WithSubtitles(None, None), PlainHost, 5) == ""
  {
    var store := WithSubtitles(None, None);
    assert PostMeta(store, 5, SUBTITLE_KEY) == Str("");
    SubtitleFallsBackToMeta(store, PlainHost, 5);
    PlainNormalize("");
  }

  /** A whitespace-only custom field still wins over "B", and then normalises to ''. */
  lemma BlankFieldBeatsMeta()
    ensures Subtitle(WithSubtitles(Some(Spaces(2)), Some("B")), PlainHost, 5) == ""
  {
    assert FieldSubtitle(WithSubtitles(Some(Spaces(2)), Some("B")), 5) == Spaces(2);
    BlankNormalizesToEmpty();
  }

  /** The reply keeps a non-empty subtitle and maps an empty one to null. */
  lemma SubtitleReplyScenarios()
    ensures GetPostBySlug(WithSubtitles(Some("A"), Some("B")), PlainHost, "s").response.subtitle == Some("A")
    ensures GetPostBySlug(WithSubtitles(None, None), PlainHost, "s").response.subtitle == None
  {
    FieldBeatsMeta();
    NoSubtitle();
    ResponseComesFromFirstMatch(WithSubtitles(Some("A"), Some("B")), PlainHost, "s", 0);
    ResponseComesFromFirstMatch(WithSubtitles(None, None), PlainHost, "s", 0);
  }

  // ---------------------------------------------------------------------------
  // Volume winner
  // ---------------------------------------------------------------------------

  function VolumePosts(): seq<Post> {
    [Article(5, "s", "T"), VolumePost(100, "One"), VolumePost(200, "Two")]
  }

  function WithVolumes(hasPrimary: bool, rows: seq<VolumeItem>): Store {
    Store(VolumePosts(), map[], None, map[], Some(VolumeTable(hasPrimary, rows)))
  }

  lemma VolumePostsAreVolumes()
    ensures HasPostOfType(VolumePosts(), 100, VOLUME_TYPE)
    ensures HasPostOfType(VolumePosts(), 200, VOLUME_TYPE)
    ensures TitleById(VolumePosts(), 100) == Str("One")
    ensures TitleById(VolumePosts(), 200) == Str("Two")
  {
    assert VolumePosts()[1].id == 100 && VolumePosts()[2].id == 200;
    assert VolumePosts()[1..][1..] == [VolumePost(200, "Two")];
  }

  /** Two memberships of post 5 in a table without the flag column: volume 200 at position 2, volume 100 at position 1. */
  const PositionRows: seq<VolumeItem> := [VolumeItem(1, 5, 200, 2, 0), VolumeItem(2, 5, 100, 1, 0)]

  /** Two memberships of post 5 in a table with the flag column: volume 100 at position 1, flagged volume 200 at position 5. */
  const FlagRows: seq<VolumeItem> := [VolumeItem(1, 5, 100, 1, 0), VolumeItem(2, 5, 200, 5, 1)]

  lemma PositionWinner()
    ensures WinningRow(VolumePosts(), 5, VolumeTable(false, PositionRows)) == Some(PositionRows[1])
  {
    VolumePostsAreVolumes();
    assert BestIndex(VolumePosts(), 5, false, PositionRows[1..]) == 0;
  }

  /** Without the flag column, the row at position 1 beats the row at position 2. */
  lemma PositionDecidesWithoutFlag()
    ensures PrimaryVolumeTitle(WithVolumes(false, PositionRows), PlainHost, 5) == "One"
  {
    PositionWinner();
    VolumePostsAreVolumes();
    CleanIsKept("One");
    WinnersTitle(WithVolumes(false, PositionRows), 5, PositionRows[1], "One");
  }

  lemma FlagWinner()
    ensures WinningRow(VolumePosts(), 5, VolumeTable(true, FlagRows)) == Some(FlagRows[1])
  {
    VolumePostsAreVolumes();
    assert BestIndex(VolumePosts(), 5, true, FlagRows[1..]) == 0;
  }

  /** With the flag column, a flagged row at position 5 beats an unflagged row at position 1. */
  lemma FlagDecidesOverPosition()
    ensures PrimaryVolumeTitle(WithVolumes(true, FlagRows), PlainHost, 5) == "Two"
  {
    FlagWinner();
    VolumePostsAreVolumes();
    CleanIsKept("Two");
    WinnersTitle(WithVolumes(true, FlagRows), 5, FlagRows[1], "Two");
  }

  /** The volume title under the plain host, once the winner and its title are known. */
  lemma WinnersTitle(store: Store, postId: int, row: VolumeItem, title: string)
    requires postId > 0 && store.volumeItems.Some?
    requires WinningRow(store.posts, postId, store.volumeItems.value) == Some(row)
    requires row.volumeId != 0 && TitleById(store.posts, row.volumeId) == Str(title)
    requires Normalize(PlainHost, Str(title)) == title
    ensures PrimaryVolumeTitle(store, PlainHost, postId) == title
  {
    VolumeTitleIsWinnersTitle(store, PlainHost, postId, row);
  }

  // ---------------------------------------------------------------------------
  // Entity decoding and idempotence
  // ---------------------------------------------------------------------------

  /** `html_entity_decode` decodes one level of escaping: "&amp;lt;" becomes "&lt;", and that becomes "<". */
  function DecodeOnce(s: string): string {
    if s == "&amp;lt;" then "&lt;" else if s == "&lt;" then "<" else s
  }

  const DecodingHost: Host := Host(DecodeOnce, s => s, s => true, AsciiSpace, s => s)

  lemma FirstPass()
    ensures Normalize(DecodingHost, Str("&amp;lt;")) == "&lt;"
  {
    assert DecodeOnce("&amp;lt;") == "&lt;";
    DecodedWord(DecodingHost, "&amp;lt;", "&lt;");
  }

  lemma SecondPass()
    ensures Normalize(DecodingHost, Str("&lt;")) == "<"
  {
    assert DecodeOnce("&lt;") == "<";
    DecodedWord(DecodingHost, "&lt;", "<");
  }

  /**
   * Only the collapse-and-trim stage is idempotent: the whole normaliser is
   * not, because a doubly escaped entity loses one level of escaping on
   * every pass.
   */
  lemma NormalizeIsNotIdempotent()
    ensures Normalize(DecodingHost, Str(Normalize(DecodingHost, Str("&amp;lt;"))))
            != Normalize(DecodingHost, Str("&amp;lt;"))
  {
    FirstPass();
    SecondPass();
  }
}
