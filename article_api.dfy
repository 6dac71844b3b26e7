/**
 * The request pipeline of `CZ_Article_API` (cz-article-api.php:39-169):
 * slug validation, the published-post lookup, the author, subtitle and
 * volume resolvers, and the response assembly. Every method of the class
 * is a function of the store and the host runtime.
 */
module ArticleApi {
  import opened Runtime
  import opened Store
  import opened PlainText

  /** The field name shared by the custom-field provider and post meta. */
  const SUBTITLE_KEY := "sottotitolo"
  const VOLUME_TYPE := "volume"

  const INVALID_SLUG_CODE := "cz_article_api_invalid_slug"
  const INVALID_SLUG_MESSAGE := "Slug non valido."
  const NOT_FOUND_CODE := "cz_article_api_not_found"
  const NOT_FOUND_MESSAGE := "Post non trovato."

  /** The JSON body of a successful lookup; `None` stands for JSON null. */
  datatype ArticleResponse = ArticleResponse(
    author: string,
    title: string,
    subtitle: Option<string>,
    content: string,
    volume: Option<string>)

  /** A REST reply: the response, or a `WP_Error` with its code, message and HTTP status. */
  datatype Reply = Ok(response: ArticleResponse) | Error(code: string, message: string, status: int)

  // ---------------------------------------------------------------------------
  // Post lookup (find_published_post_by_slug)
  // ---------------------------------------------------------------------------

  /** The filter of the post query: this slug, type `post`, status `publish`. */
  predicate IsPublishedPost(p: Post, slug: string) {
    p.slug == slug && p.postType == "post" && p.status == "publish"
  }

  /** The position of the first published post with this slug, or `|posts|` when there is none. */
  function FirstPublishedIndex(posts: seq<Post>, slug: string): (k: nat)
    ensures k <= |posts|
    ensures forall j :: 0 <= j < k ==> !IsPublishedPost(posts[j], slug)
    ensures k < |posts| ==> IsPublishedPost(posts[k], slug)
  {
    if posts == [] then 0
    else if IsPublishedPost(posts[0], slug) then 0
    else 1 + FirstPublishedIndex(posts[1..], slug)
  }

  /**
   * `find_published_post_by_slug`: the first post of the query's result
   * (`posts_per_page` 1), or nothing. `posts` is in the query's order.
   */
  function FindPublishedPostBySlug(posts: seq<Post>, slug: string): (r: Option<Post>)
    ensures r.None? <==> forall j :: 0 <= j < |posts| ==> !IsPublishedPost(posts[j], slug)
    ensures r.Some? ==> r.value in posts && IsPublishedPost(r.value, slug)
  {
    var k := FirstPublishedIndex(posts, slug);
    if k < |posts| then Some(posts[k]) else None
  }

  /** The lookup returns precisely the first matching post. */
  lemma FindPublishedPostIsFirstMatch(posts: seq<Post>, slug: string, i: nat)
    requires i < |posts| && IsPublishedPost(posts[i], slug)
    requires forall j :: 0 <= j < i ==> !IsPublishedPost(posts[j], slug)
    ensures FindPublishedPostBySlug(posts, slug) == Some(posts[i])
  {
  }

  // ---------------------------------------------------------------------------
  // Author (get_author_name)
  // ---------------------------------------------------------------------------

  /** `get_author_name`: the normalised display name, or '' when it is not a string. */
  function AuthorName(store: Store, host: Host, post: Post): (r: string)
    ensures Clean(host.isSpace, r)
    ensures DisplayName(store, post.authorId).NonString? ==> r == ""
    ensures DisplayName(store, post.authorId).Str? ==> r == Normalize(host, DisplayName(store, post.authorId))
  {
    match DisplayName(store, post.authorId)
    case Str(s) => Normalize(host, Str(s))
    case NonString => ""
  }

  // ---------------------------------------------------------------------------
  // Subtitle (get_subtitle)
  // ---------------------------------------------------------------------------

  /** The custom-field provider's subtitle when the provider exists and answers with a string, '' otherwise. */
  function FieldSubtitle(store: Store, id: int): string {
    match store.customFields
    case None => ""
    case Some(fields) =>
      match CustomField(fields, id, SUBTITLE_KEY)
      case Str(s) => s
      case NonString => ""
  }

  /** The post-meta subtitle when it is a string, '' otherwise. */
  function MetaSubtitle(store: Store, id: int): string {
    match PostMeta(store, id, SUBTITLE_KEY)
    case Str(s) => s
    case NonString => ""
  }

  /**
   * `get_subtitle`: a post id that `absint`s to 0 gives ''; otherwise the
   * custom field wins unless it is '' (compared before normalising), then
   * post meta; the winner is normalised.
   */
  function Subtitle(store: Store, host: Host, postId: int): (r: string)
    ensures Clean(host.isSpace, r)
    ensures Absint(postId) == 0 ==> r == ""
    ensures Absint(postId) != 0 && FieldSubtitle(store, Absint(postId)) != "" ==>
              r == Normalize(host, Str(FieldSubtitle(store, Absint(postId))))
  {
    var id := Absint(postId);
    if id == 0 then ""
    else
      var field := FieldSubtitle(store, id);
      var raw := if field != "" then field else MetaSubtitle(store, id);
      Normalize(host, Str(raw))
  }

  /** A non-empty custom-field subtitle makes post meta irrelevant: changing only the meta changes nothing. */
  lemma SubtitleIgnoresMetaWhenFieldSet(store: Store, host: Host, postId: int, meta: map<(int, string), Value>)
    requires FieldSubtitle(store, Absint(postId)) != ""
    ensures Subtitle(store.(postMeta := meta), host, postId) == Subtitle(store, host, postId)
  {
  }

  /**
   * Without a usable custom field (no provider, a non-string, or '') the
   * subtitle is the normalised meta value when that is a string, and ''
   * otherwise.
   */
  lemma SubtitleFallsBackToMeta(store: Store, host: Host, postId: int)
    requires Absint(postId) != 0
    requires store.customFields.None? ||
             !CustomField(store.customFields.value, Absint(postId), SUBTITLE_KEY).Str? ||
             CustomField(store.customFields.value, Absint(postId), SUBTITLE_KEY).s == ""
    ensures PostMeta(store, Absint(postId), SUBTITLE_KEY).Str? ==>
              Subtitle(store, host, postId) == Normalize(host, PostMeta(store, Absint(postId), SUBTITLE_KEY))
    ensures PostMeta(store, Absint(postId), SUBTITLE_KEY).NonString? ==>
              Subtitle(store, host, postId) == Normalize(host, Str(""))
  {
  }

  // ---------------------------------------------------------------------------
  // Volume (get_primary_volume_title)
  // ---------------------------------------------------------------------------

  /**
   * The strict order of `ORDER BY i.is_primary DESC, i.position ASC, i.id ASC`,
   * or `ORDER BY i.position ASC, i.id ASC` without the `is_primary` column.
   */
  predicate Before(a: VolumeItem, b: VolumeItem, hasPrimary: bool) {
    if hasPrimary && a.isPrimary != b.isPrimary then a.isPrimary > b.isPrimary
    else if a.position != b.position then a.position < b.position
    else a.id < b.id
  }

  /** The `WHERE`/`JOIN` of the volume query: a row for this post whose volume is a post of type `volume`. */
  predicate IsCandidate(posts: seq<Post>, postId: int, row: VolumeItem) {
    row.postId == postId && HasPostOfType(posts, row.volumeId, VOLUME_TYPE)
  }

  /**
   * `ORDER BY … LIMIT 1` over the rows: the position of the least
   * candidate (the earliest one among equals), or `|rows|` when there is no
   * candidate.
   */
  function BestIndex(posts: seq<Post>, postId: int, hasPrimary: bool, rows: seq<VolumeItem>): (k: nat)
    ensures k <= |rows|
    ensures k == |rows| <==> forall i :: 0 <= i < |rows| ==> !IsCandidate(posts, postId, rows[i])
    ensures k < |rows| ==> IsCandidate(posts, postId, rows[k])
    ensures k < |rows| ==> forall i :: 0 <= i < |rows| && IsCandidate(posts, postId, rows[i]) ==>
              !Before(rows[i], rows[k], hasPrimary)
    ensures k < |rows| ==> forall i :: 0 <= i < k && IsCandidate(posts, postId, rows[i]) ==>
              Before(rows[k], rows[i], hasPrimary)
  {
    if rows == [] then 0
    else
      var k := BestIndex(posts, postId, hasPrimary, rows[1..]);
      if !IsCandidate(posts, postId, rows[0]) then k + 1
      else if k < |rows| - 1 && Before(rows[1..][k], rows[0], hasPrimary) then k + 1
      else 0
  }

  /** The winning membership row of the volume query, if any. */
  function WinningRow(posts: seq<Post>, postId: int, table: VolumeTable): (r: Option<VolumeItem>)
    ensures r.None? <==> forall x :: x in table.rows ==> !IsCandidate(posts, postId, x)
    ensures r.Some? ==> r.value in table.rows && IsCandidate(posts, postId, r.value)
    ensures r.Some? ==> forall x :: x in table.rows && IsCandidate(posts, postId, x) ==>
              !Before(x, r.value, table.hasPrimaryColumn)
  {
    var k := BestIndex(posts, postId, table.hasPrimaryColumn, table.rows);
    if k < |table.rows| then Some(table.rows[k]) else None
  }

  /**
   * `get_primary_volume_title`: '' for a post id that `absint`s to 0, for a
   * missing table, when no row wins or the winning volume id is 0;
   * otherwise the normalised title of the winning volume.
   */
  function PrimaryVolumeTitle(store: Store, host: Host, postId: int): (r: string)
    ensures Clean(host.isSpace, r)
    ensures Absint(postId) == 0 || store.volumeItems.None? ==> r == ""
    ensures (Absint(postId) != 0 && store.volumeItems.Some? &&
             WinningRow(store.posts, Absint(postId), store.volumeItems.value).None?) ==> r == ""
  {
    var id := Absint(postId);
    if id == 0 then ""
    else
      match store.volumeItems
      case None => ""
      case Some(table) =>
        var volumeId := match WinningRow(store.posts, id, table)
                        case None => 0
                        case Some(row) => row.volumeId;
        if volumeId == 0 then ""
        else
          match TitleById(store.posts, volumeId)
          case Str(t) => Normalize(host, Str(t))
          case NonString => ""
  }

  /**
   * With a table and a winning row whose volume id is not 0, the volume
   * title is the normalised title of that volume; a winning volume id of 0
   * gives ''.
   */
  lemma VolumeTitleIsWinnersTitle(store: Store, host: Host, postId: int, row: VolumeItem)
    requires Absint(postId) != 0 && store.volumeItems.Some?
    requires WinningRow(store.posts, Absint(postId), store.volumeItems.value) == Some(row)
    ensures row.volumeId == 0 ==> PrimaryVolumeTitle(store, host, postId) == ""
    ensures row.volumeId != 0 ==>
              PrimaryVolumeTitle(store, host, postId) == Normalize(host, TitleById(store.posts, row.volumeId))
  {
  }

  /** The order of the volume query decides between any two rows with different ids. */
  lemma BeforeIsTotal(a: VolumeItem, b: VolumeItem, hasPrimary: bool)
    requires a.id != b.id
    ensures Before(a, b, hasPrimary) || Before(b, a, hasPrimary)
  {
  }

  /** With the `is_primary` column, no candidate has a higher flag than the winner. */
  lemma WinnerHasHighestFlag(posts: seq<Post>, postId: int, table: VolumeTable, x: VolumeItem)
    requires table.hasPrimaryColumn
    requires x in table.rows && IsCandidate(posts, postId, x)
    ensures WinningRow(posts, postId, table).Some?
    ensures x.isPrimary <= WinningRow(posts, postId, table).value.isPrimary
  {
    var w := WinningRow(posts, postId, table).value;
    assert !Before(x, w, true);
  }

  /** A flagged candidate beats every unflagged one, whatever the positions: the winner is flagged. */
  lemma FlaggedRowWins(posts: seq<Post>, postId: int, table: VolumeTable, x: VolumeItem)
    requires table.hasPrimaryColumn
    requires x in table.rows && IsCandidate(posts, postId, x) && x.isPrimary == 1
    requires forall y :: y in table.rows && IsCandidate(posts, postId, y) ==> y.isPrimary == 0 || y.isPrimary == 1
    ensures WinningRow(posts, postId, table).Some?
    ensures WinningRow(posts, postId, table).value.isPrimary == 1
  {
    WinnerHasHighestFlag(posts, postId, table, x);
  }

  /** Without the `is_primary` column, the winner has the least position, and the least id among those. */
  lemma WinnerHasLeastPosition(posts: seq<Post>, postId: int, table: VolumeTable, x: VolumeItem)
    requires !table.hasPrimaryColumn
    requires x in table.rows && IsCandidate(posts, postId, x)
    ensures WinningRow(posts, postId, table).Some?
    ensures WinningRow(posts, postId, table).value.position <= x.position
    ensures WinningRow(posts, postId, table).value.position == x.position ==>
              WinningRow(posts, postId, table).value.id <= x.id
  {
    var w := WinningRow(posts, postId, table).value;
    assert !Before(x, w, false);
  }

  /** No two distinct rows of the table share an id (it is the table's key). */
  predicate UniqueIds(rows: seq<VolumeItem>) {
    forall a, b :: a in rows && b in rows && a.id == b.id ==> a == b
  }

  /**
   * When ids are unique, the winner depends only on which rows the table
   * holds, not on the order the model lists them in: the sequence is a
   * faithful stand-in for an unordered SQL table.
   */
  lemma WinnerIndependentOfRowOrder(posts: seq<Post>, postId: int, t1: VolumeTable, t2: VolumeTable)
    requires t1.hasPrimaryColumn == t2.hasPrimaryColumn
    requires forall x :: x in t1.rows <==> x in t2.rows
    requires UniqueIds(t1.rows)
    ensures WinningRow(posts, postId, t1) == WinningRow(posts, postId, t2)
  {
    var r1 := WinningRow(posts, postId, t1);
    var r2 := WinningRow(posts, postId, t2);
    if r1.Some? && r2.Some? {
      var w1, w2 := r1.value, r2.value;
      assert !Before(w1, w2, t1.hasPrimaryColumn) && !Before(w2, w1, t1.hasPrimaryColumn);
      if w1.id != w2.id {
        BeforeIsTotal(w1, w2, t1.hasPrimaryColumn);
      }
    }
  }

  // ---------------------------------------------------------------------------
  // Request handling (get_post_by_slug)
  // ---------------------------------------------------------------------------

  /** `'' !== $s ? $s : null`. */
  function OrNull(s: string): (r: Option<string>)
    ensures r.None? <==> s == ""
    ensures r.Some? ==> r.value == s
  {
    if s == "" then None else Some(s)
  }

  /** The shape every successful response has: normalised strings, and null in place of ''. */
  predicate WellFormed(host: Host, resp: ArticleResponse) {
    Clean(host.isSpace, resp.author) &&
    Clean(host.isSpace, resp.title) &&
    (resp.subtitle.Some? ==> resp.subtitle.value != "" && Clean(host.isSpace, resp.subtitle.value)) &&
    (resp.volume.Some? ==> resp.volume.value != "" && Clean(host.isSpace, resp.volume.value))
  }

  /**
   * `get_post_by_slug`: 400 for an empty slug, 404 when no published post
   * has it, and otherwise the response assembled from the first match.
   */
  function GetPostBySlug(store: Store, host: Host, slug: string): (r: Reply)
    ensures slug == "" ==> r == Error(INVALID_SLUG_CODE, INVALID_SLUG_MESSAGE, 400)
    ensures slug != "" && FindPublishedPostBySlug(store.posts, slug).None? ==>
              r == Error(NOT_FOUND_CODE, NOT_FOUND_MESSAGE, 404)
    ensures r.Ok? <==> slug != "" && FindPublishedPostBySlug(store.posts, slug).Some?
    ensures r.Ok? ==> WellFormed(host, r.response)
  {
    if slug == "" then Error(INVALID_SLUG_CODE, INVALID_SLUG_MESSAGE, 400)
    else
      match FindPublishedPostBySlug(store.posts, slug)
      case None => Error(NOT_FOUND_CODE, NOT_FOUND_MESSAGE, 404)
      case Some(post) =>
        var subtitle := Subtitle(store, host, post.id);
        var volume := PrimaryVolumeTitle(store, host, post.id);
        Ok(ArticleResponse(
          author := AuthorName(store, host, post),
          title := Normalize(host, post.title),
          subtitle := OrNull(subtitle),
          content := host.renderContent(post.content),
          volume := OrNull(volume)))
  }

  /** An empty slug is rejected before the store or the runtime is consulted. */
  lemma EmptySlugReadsNothing(s1: Store, h1: Host, s2: Store, h2: Host)
    ensures GetPostBySlug(s1, h1, "") == GetPostBySlug(s2, h2, "")
  {
  }

  /**
   * A successful reply is built from the first published post with the
   * slug: each field is that post's resolved value, and subtitle and volume
   * are null exactly when they resolved to ''.
   */
  lemma ResponseComesFromFirstMatch(store: Store, host: Host, slug: string, i: nat)
    requires slug != ""
    requires i < |store.posts| && IsPublishedPost(store.posts[i], slug)
    requires forall j :: 0 <= j < i ==> !IsPublishedPost(store.posts[j], slug)
    ensures GetPostBySlug(store, host, slug).Ok?
    ensures var resp := GetPostBySlug(store, host, slug).response;
            var post := store.posts[i];
            resp.author == AuthorName(store, host, post) &&
            resp.title == Normalize(host, post.title) &&
            resp.content == host.renderContent(post.content) &&
            (resp.subtitle.None? <==> Subtitle(store, host, post.id) == "") &&
            (resp.subtitle.Some? ==> resp.subtitle.value == Subtitle(store, host, post.id)) &&
            (resp.volume.None? <==> PrimaryVolumeTitle(store, host, post.id) == "") &&
            (resp.volume.Some? ==> resp.volume.value == PrimaryVolumeTitle(store, host, post.id))
  {
    FindPublishedPostIsFirstMatch(store.posts, slug, i);
  }
}
