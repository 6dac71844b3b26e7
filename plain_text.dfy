/**
 * `normalize_plain_text` (cz-article-api.php:171-181): entity decoding and
 * tag stripping are foreign (fields of `Host`); the collapse of every `\s+`
 * run to one space and PHP's `trim` are modelled exactly.
 */
module PlainText {
  import opened Runtime

  /** The characters PHP's `trim` removes by default: " \t\n\r\0\x0B". */
  predicate IsTrimChar(c: char) {
    c == ' ' || c == '\t' || c == '\n' || c == '\r' || c == '\0' || c == '\U{000B}'
  }

  /** No two adjacent whitespace characters, and every whitespace character is a plain space. */
  predicate Collapsed(sp: SpaceClass, t: string) {
    (forall k :: 0 <= k < |t| && sp(t[k]) ==> t[k] == ' ') &&
    (forall k :: 0 <= k < |t| - 1 ==> !(sp(t[k]) && sp(t[k + 1])))
  }

  /** The shape every normalised string has: collapsed, with nothing `trim` would remove at either end. */
  predicate Clean(sp: SpaceClass, t: string) {
    Collapsed(sp, t) &&
    (t != [] ==> !IsTrimChar(t[0]) && !IsTrimChar(t[|t| - 1]))
  }

  /** The non-whitespace characters of `s`, in order. */
  function NonSpaces(sp: SpaceClass, s: string): string {
    if s == [] then []
    else if sp(s[0]) then NonSpaces(sp, s[1..])
    else [s[0]] + NonSpaces(sp, s[1..])
  }

  /** Drops the whitespace run at the front of `s`. */
  function SkipSpaces(sp: SpaceClass, s: string): (r: string)
    ensures |r| <= |s|
    ensures r != [] ==> !sp(r[0])
  {
    if s != [] && sp(s[0]) then SkipSpaces(sp, s[1..]) else s
  }

  /** `SkipSpaces` keeps a suffix of `s`, and everything it drops is whitespace. */
  lemma {:induction false} SkipSpacesDropsRun(sp: SpaceClass, s: string)
    ensures SkipSpaces(sp, s) == s[|s| - |SkipSpaces(sp, s)|..]
    ensures forall k :: 0 <= k < |s| - |SkipSpaces(sp, s)| ==> sp(s[k])
  {
    if s != [] && sp(s[0]) {
      var tail := SkipSpaces(sp, s[1..]);
      SkipSpacesDropsRun(sp, s[1..]);
      assert s[1..][|s[1..]| - |tail|..] == s[|s| - |tail|..];
      forall k | 1 <= k < |s| - |tail|
        ensures sp(s[k])
      {
        assert s[k] == s[1..][k - 1];
      }
    }
  }

  /** `preg_replace('/\s+/u', ' ', s)`: every maximal whitespace run becomes one space. */
  function Collapse(sp: SpaceClass, s: string): string
    decreases |s|
  {
    if s == [] then []
    else if sp(s[0]) then [' '] + Collapse(sp, SkipSpaces(sp, s[1..]))
    else [s[0]] + Collapse(sp, s[1..])
  }

  /** `ltrim` with the default character set. */
  function TrimLeft(s: string): (r: string)
    ensures |r| <= |s| && r == s[|s| - |r|..]
    ensures forall k :: 0 <= k < |s| - |r| ==> IsTrimChar(s[k])
    ensures r != [] ==> !IsTrimChar(r[0])
  {
    if s != [] && IsTrimChar(s[0]) then TrimLeft(s[1..]) else s
  }

  /** `rtrim` with the default character set. */
  function TrimRight(s: string): (r: string)
    ensures |r| <= |s| && r == s[..|r|]
    ensures forall k :: |r| <= k < |s| ==> IsTrimChar(s[k])
    ensures r != [] ==> !IsTrimChar(r[|r| - 1])
  {
    if s != [] && IsTrimChar(s[|s| - 1]) then TrimRight(s[..|s| - 1]) else s
  }

  /** PHP `trim`: what is left starts and ends with a character outside the trim set. */
  function Trim(s: string): (r: string)
    ensures |r| <= |s|
    ensures r != [] ==> !IsTrimChar(r[0]) && !IsTrimChar(r[|r| - 1])
  {
    TrimRight(TrimLeft(s))
  }

  /** `trim` keeps an infix of `s`: the one starting where `ltrim` stops. */
  lemma TrimIsInfix(s: string)
    ensures |s| - |TrimLeft(s)| + |Trim(s)| <= |s|
    ensures Trim(s) == s[|s| - |TrimLeft(s)|..|s| - |TrimLeft(s)| + |Trim(s)|]
  {
    var l := TrimLeft(s);
    var i := |s| - |l|;
    TrimRightOfSuffix(s, i, l);
    assert Trim(s) == TrimRight(l);
  }

  /** What `trim` removes at either end consists of trim characters only. */
  lemma TrimRemovesTrimChars(s: string)
    ensures forall k :: 0 <= k < |s| - |TrimLeft(s)| ==> IsTrimChar(s[k])
    ensures forall k :: |s| - |TrimLeft(s)| + |Trim(s)| <= k < |s| ==> IsTrimChar(s[k])
  {
    TrimRightOfSuffix(s, |s| - |TrimLeft(s)|, TrimLeft(s));
  }

  /** Right-trimming the suffix of `s` from `i` keeps an infix of `s` followed only by trim characters. */
  lemma TrimRightOfSuffix(s: string, i: nat, l: string)
    requires i <= |s| && l == s[i..]
    ensures i + |TrimRight(l)| <= |s|
    ensures TrimRight(l) == s[i..i + |TrimRight(l)|]
    ensures forall k :: i + |TrimRight(l)| <= k < |s| ==> IsTrimChar(s[k])
  {
    var r := TrimRight(l);
    assert l[..|r|] == s[i..i + |r|];
    forall k | i + |r| <= k < |s|
      ensures IsTrimChar(s[k])
    {
      assert s[k] == l[k - i];
    }
  }

  /** The collapse-and-trim stage of the normaliser (cz-article-api.php:178-180). */
  function CollapseTrim(sp: SpaceClass, s: string): (r: string)
    ensures Clean(sp, r)
    ensures r != [] ==> !sp(r[0]) && !sp(r[|r| - 1])
  {
    var c := Collapse(sp, s);
    CollapseIsCollapsed(sp, s);
    TrimKeepsCollapsed(sp, c);
    CleanEnds(sp, Trim(c));
    Trim(c)
  }

  /** `normalize_plain_text` (cz-article-api.php:171-181). */
  function Normalize(host: Host, v: Value): (r: string)
    ensures Clean(host.isSpace, r)
    ensures r != [] ==> !host.isSpace(r[0]) && !host.isSpace(r[|r| - 1])
    ensures v.NonString? ==> r == ""
    ensures v.Str? && host.acceptsUtf8(host.stripAllTags(host.entityDecode(v.s))) ==>
              r == CollapseTrim(host.isSpace, host.stripAllTags(host.entityDecode(v.s)))
    ensures v.Str? && !host.acceptsUtf8(host.stripAllTags(host.entityDecode(v.s))) ==> r == ""
  {
    match v
    case NonString => ""
    case Str(s) =>
      var plain := host.stripAllTags(host.entityDecode(s));
      if host.acceptsUtf8(plain) then CollapseTrim(host.isSpace, plain) else ""
  }

  /** Skipping a whitespace run removes no other character. */
  lemma {:induction false} SkipSpacesKeepsNonSpaces(sp: SpaceClass, s: string)
    ensures NonSpaces(sp, SkipSpaces(sp, s)) == NonSpaces(sp, s)
  {
    if s != [] && sp(s[0]) {
      SkipSpacesKeepsNonSpaces(sp, s[1..]);
    }
  }

  /**
   * The output of `Collapse` is collapsed, is empty exactly when the input
   * is, and starts with whitespace exactly when the input does.
   */
  lemma {:induction false} CollapseIsCollapsed(sp: SpaceClass, s: string)
    decreases |s|
    ensures Collapse(sp, s) == [] <==> s == []
    ensures Collapse(sp, s) != [] ==> (sp(Collapse(sp, s)[0]) <==> sp(s[0]))
    ensures Collapsed(sp, Collapse(sp, s))
  {
    if s != [] {
      var tail := if sp(s[0]) then SkipSpaces(sp, s[1..]) else s[1..];
      var head := if sp(s[0]) then ' ' else s[0];
      CollapseIsCollapsed(sp, tail);
      var rest := Collapse(sp, tail);
      var r := [head] + rest;
      assert Collapse(sp, s) == r;
      forall k | 0 <= k < |r| - 1
        ensures !(sp(r[k]) && sp(r[k + 1]))
      {
        if k > 0 {
          assert r[k] == rest[k - 1] && r[k + 1] == rest[k];
        }
      }
      forall k | 0 <= k < |r| && sp(r[k])
        ensures r[k] == ' '
      {
        if k > 0 {
          assert r[k] == rest[k - 1];
        }
      }
    }
  }

  /** Collapsing keeps every non-whitespace character, in order. */
  lemma {:induction false} CollapseKeepsNonSpaces(sp: SpaceClass, s: string)
    decreases |s|
    ensures NonSpaces(sp, Collapse(sp, s)) == NonSpaces(sp, s)
  {
    if s != [] {
      if sp(s[0]) {
        var tail := SkipSpaces(sp, s[1..]);
        CollapseKeepsNonSpaces(sp, tail);
        SkipSpacesKeepsNonSpaces(sp, s[1..]);
        assert ([' '] + Collapse(sp, tail))[1..] == Collapse(sp, tail);
      } else {
        CollapseKeepsNonSpaces(sp, s[1..]);
        assert ([s[0]] + Collapse(sp, s[1..]))[1..] == Collapse(sp, s[1..]);
      }
    }
  }

  /** Skipping spaces over a whitespace prefix `w` stops exactly at what follows it. */
  lemma {:induction false} SkipSpacesOfRun(sp: SpaceClass, w: string, rest: string)
    requires forall k :: 0 <= k < |w| ==> sp(w[k])
    requires rest == [] || !sp(rest[0])
    ensures SkipSpaces(sp, w + rest) == rest
  {
    if w == [] {
      assert w + rest == rest;
    } else {
      assert (w + rest)[0] == w[0] && (w + rest)[1..] == w[1..] + rest;
      SkipSpacesOfRun(sp, w[1..], rest);
    }
  }

  /**
   * Skipping spaces in `u + x`, where `u` ends with a non-whitespace
   * character, stops inside `u`.
   */
  lemma {:induction false} SkipSpacesConcat(sp: SpaceClass, u: string, x: string)
    requires u != [] && !sp(u[|u| - 1])
    ensures SkipSpaces(sp, u + x) == SkipSpaces(sp, u) + x
    ensures SkipSpaces(sp, u) != [] && !sp(SkipSpaces(sp, u)[|SkipSpaces(sp, u)| - 1])
  {
    if sp(u[0]) {
      assert (u + x)[0] == u[0] && (u + x)[1..] == u[1..] + x;
      assert u[1..][|u[1..]| - 1] == u[|u| - 1];
      SkipSpacesConcat(sp, u[1..], x);
    } else {
      assert (u + x)[0] == u[0];
    }
  }

  /** A whitespace run becomes exactly one space: `Collapse(w + v) == " " + Collapse(v)`. */
  lemma CollapseOfRun(sp: SpaceClass, w: string, v: string)
    requires w != [] && forall k :: 0 <= k < |w| ==> sp(w[k])
    requires v == [] || !sp(v[0])
    ensures Collapse(sp, w + v) == " " + Collapse(sp, v)
  {
    assert (w + v)[0] == w[0] && (w + v)[1..] == w[1..] + v;
    SkipSpacesOfRun(sp, w[1..], v);
  }

  /**
   * The collapse works run by run: cutting the input after a non-whitespace
   * character cuts the output at the same place.
   */
  lemma {:induction false} CollapseConcat(sp: SpaceClass, u: string, x: string)
    requires u == [] || !sp(u[|u| - 1])
    ensures Collapse(sp, u + x) == Collapse(sp, u) + Collapse(sp, x)
    decreases |u|
  {
    if u == [] {
      assert u + x == x;
    } else if sp(u[0]) {
      var u1 := u[1..];
      assert u1 != [] && u1[|u1| - 1] == u[|u| - 1];
      assert (u + x)[0] == u[0] && (u + x)[1..] == u1 + x;
      SkipSpacesConcat(sp, u1, x);
      var rest := SkipSpaces(sp, u1);
      CollapseConcat(sp, rest, x);
      assert Collapse(sp, u + x) == [' '] + Collapse(sp, rest + x);
    } else {
      var u1 := u[1..];
      assert u1 == [] || u1[|u1| - 1] == u[|u| - 1];
      assert (u + x)[0] == u[0] && (u + x)[1..] == u1 + x;
      CollapseConcat(sp, u1, x);
      assert Collapse(sp, u + x) == [u[0]] + Collapse(sp, u1 + x);
    }
  }

  /** Any infix of a collapsed string is collapsed. */
  lemma InfixCollapsed(sp: SpaceClass, t: string, i: nat, j: nat)
    requires i <= j <= |t|
    requires Collapsed(sp, t)
    ensures Collapsed(sp, t[i..j])
  {
    var u := t[i..j];
    forall k | 0 <= k < |u| - 1
      ensures !(sp(u[k]) && sp(u[k + 1]))
    {
      assert u[k] == t[i + k] && u[k + 1] == t[i + k + 1];
    }
  }

  /** Trimming a collapsed string leaves a collapsed one. */
  lemma TrimKeepsCollapsed(sp: SpaceClass, c: string)
    requires Collapsed(sp, c)
    ensures Collapsed(sp, Trim(c))
  {
    var i := |c| - |TrimLeft(c)|;
    TrimIsInfix(c);
    InfixCollapsed(sp, c, i, i + |Trim(c)|);
  }

  /** A clean string has no whitespace at either end, since its only whitespace is ' '. */
  lemma CleanEnds(sp: SpaceClass, t: string)
    requires Collapsed(sp, t)
    requires t != [] ==> !IsTrimChar(t[0]) && !IsTrimChar(t[|t| - 1])
    ensures t != [] ==> !sp(t[0]) && !sp(t[|t| - 1])
  {
  }

  /** Collapsing changes a string exactly when it is not already collapsed. */
  lemma {:induction false} CollapseFixpoint(sp: SpaceClass, s: string)
    ensures Collapse(sp, s) == s <==> Collapsed(sp, s)
  {
    CollapseIsCollapsed(sp, s);
    if Collapsed(sp, s) && s != [] {
      InfixCollapsed(sp, s, 1, |s|);
      CollapseFixpoint(sp, s[1..]);
      if sp(s[0]) {
        assert s[1..] != [] ==> !sp(s[1..][0]);
        assert SkipSpaces(sp, s[1..]) == s[1..];
      }
      assert s == [s[0]] + s[1..];
    }
  }

  /** Trimming changes a string exactly when it has a trim character at one end. */
  lemma TrimFixpoint(s: string)
    ensures Trim(s) == s <==> (s != [] ==> !IsTrimChar(s[0]) && !IsTrimChar(s[|s| - 1]))
  {
  }

  /** The collapse-and-trim stage leaves exactly the clean strings unchanged. */
  lemma CollapseTrimFixpoint(sp: SpaceClass, s: string)
    ensures CollapseTrim(sp, s) == s <==> Clean(sp, s)
  {
    if Clean(sp, s) {
      CollapseFixpoint(sp, s);
      TrimFixpoint(s);
    }
  }

  /** The collapse-and-trim stage is idempotent. */
  lemma CollapseTrimIdempotent(sp: SpaceClass, s: string)
    ensures CollapseTrim(sp, CollapseTrim(sp, s)) == CollapseTrim(sp, s)
  {
    CollapseTrimFixpoint(sp, CollapseTrim(sp, s));
  }

  /**
   * Applying the collapse-and-trim stage to the normaliser's output changes
   * nothing, whatever the foreign decoding and stripping did.
   */
  lemma NormalizeOutputIsStable(host: Host, v: Value)
    ensures CollapseTrim(host.isSpace, Normalize(host, v)) == Normalize(host, v)
  {
    CollapseTrimFixpoint(host.isSpace, Normalize(host, v));
  }
}
