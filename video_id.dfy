/**
 * `extractVideoId` in app/api/youtube/route.js: the first match of
 *
 *   (?:youtube\.com\/(?:[^\/]+\/.+\/|(?:v|e(?:mbed)?)\/|.*[?&]v=)|youtu\.be\/)([^"&?\/ ]{11})
 *
 * in the URL, searched left to right, with the alternatives and the greedy
 * quantifiers tried in the order the RegExp engine tries them. The result is
 * the eleven characters of the capture group, or `None` for no match.
 */
module VideoId {
  import opened Wrappers
  import opened JsStrings

  /** `[^"&?\/ ]`: any character but a double quote, ampersand, question
      mark, slash or space (line terminators included). */
  predicate IsIdChar(c: char) {
    c != '"' && c != '&' && c != '?' && c != '/' && c != ' '
  }

  /** What the extractor returns: exactly eleven identifier characters. */
  predicate IsVideoId(id: string) {
    |id| == 11 && forall k | 0 <= k < 11 :: IsIdChar(id[k])
  }

  /** The capture group `([^"&?\/ ]{11})` matches at `i`. */
  predicate IdAt(s: string, i: nat) {
    i + 11 <= |s| && IsVideoId(s[i..i + 11])
  }

  /** A slash at `u` with an identifier right after it: the tail `\/` of
      the first `youtube.com` alternative followed by the capture group. */
  predicate SlashIdAt(s: string, u: nat) {
    u < |s| && s[u] == '/' && IdAt(s, u + 1)
  }

  /** `[?&]v=` at `u` followed by the capture group. */
  predicate QueryIdAt(s: string, u: nat) {
    u + 3 <= |s| && (s[u] == '?' || s[u] == '&') && s[u + 1] == 'v' && s[u + 2] == '=' && IdAt(s, u + 3)
  }

  /** Where the greedy `[^\/]+` started at `i` stops: the first slash at or
      after `i`, or the end of the text. */
  function SlashEnd(s: string, i: nat): (e: nat)
    requires i <= |s|
    ensures i <= e <= |s|
    ensures forall k | i <= k < e :: s[k] != '/'
    ensures e < |s| ==> s[e] == '/'
    decreases |s| - i
  {
    if i == |s| || s[i] == '/' then i else SlashEnd(s, i + 1)
  }

  /** Where the greedy `.` quantifiers started at `i` stop: the first line
      terminator at or after `i`, or the end of the text. */
  function LineEnd(s: string, i: nat): (e: nat)
    requires i <= |s|
    ensures i <= e <= |s|
    ensures forall k | i <= k < e :: !IsLineTerminator(s[k])
    ensures e < |s| ==> IsLineTerminator(s[e])
    decreases |s| - i
  {
    if i == |s| || IsLineTerminator(s[i]) then i else LineEnd(s, i + 1)
  }

  /** What must follow a greedy `.` quantifier for the match to go on:
      `\/` and the capture group, or `[?&]v=` and the capture group. */
  datatype Tail = SlashTail | QueryTail

  predicate TailAt(s: string, tail: Tail, u: nat) {
    match tail
    case SlashTail => SlashIdAt(s, u)
    case QueryTail => QueryIdAt(s, u)
  }

  /** Backtracking out of a greedy quantifier: the engine tries the longest
      run first and gives back one character at a time, so the position it
      settles on is the largest `u` in `[lo, hi]` where the tail matches. */
  function LastTail(s: string, tail: Tail, lo: nat, hi: nat): (r: Option<nat>)
    ensures r.Some? ==> lo <= r.value <= hi && TailAt(s, tail, r.value)
    ensures r.Some? ==> forall u | r.value < u <= hi :: !TailAt(s, tail, u)
    ensures r.None? <==> forall u | lo <= u <= hi :: !TailAt(s, tail, u)
    decreases hi
  {
    if hi < lo then None
    else if TailAt(s, tail, hi) then Some(hi)
    else if hi == lo then None
    else LastTail(s, tail, lo, hi - 1)
  }

  /** The first alternative after "youtube.com/": `[^\/]+\/.+\/` and the
      capture group. `[^\/]+` can only end at the first slash, and `.+`
      then backs off from the end of the line. Returns where the
      identifier starts. */
  function PathAlternative(s: string, q: nat): (r: Option<nat>)
    requires q <= |s|
    ensures r.Some? ==> q + 2 < r.value && IdAt(s, r.value) && s[r.value - 1] == '/'
  {
    var e := SlashEnd(s, q);
    if q < e < |s| then
      match LastTail(s, SlashTail, e + 2, LineEnd(s, e + 1))
      case Some(u) => Some(u + 1)
      case None => None
    else None
  }

  /** The third alternative after "youtube.com/": `.*[?&]v=` and the capture
      group; `.*` backs off from the end of the line. */
  function QueryAlternative(s: string, q: nat): (r: Option<nat>)
    requires q <= |s|
    ensures r.Some? ==> q + 3 <= r.value && IdAt(s, r.value)
  {
    match LastTail(s, QueryTail, q, LineEnd(s, q))
    case Some(u) => Some(u + 3)
    case None => None
  }

  /** One attempt of the whole pattern starting at `p`: "youtube.com/"
      followed by the path, `v/`, `embed/`, `e/` and query alternatives in
      that order, else "youtu.be/". Returns where the identifier starts. */
  function MatchAt(s: string, p: nat): (r: Option<nat>)
    requires p <= |s|
    ensures r.Some? ==> IdAt(s, r.value)
    ensures r.Some? ==> OccursAt(s, "youtube.com/", p) || OccursAt(s, "youtu.be/", p)
  {
    if OccursAt(s, "youtube.com/", p) then
      var q := p + 12;
      var path := PathAlternative(s, q);
      if path.Some? then path
      else if OccursAt(s, "v/", q) && IdAt(s, q + 2) then Some(q + 2)
      else if OccursAt(s, "embed/", q) && IdAt(s, q + 6) then Some(q + 6)
      else if OccursAt(s, "e/", q) && IdAt(s, q + 2) then Some(q + 2)
      else QueryAlternative(s, q)
    else if OccursAt(s, "youtu.be/", p) && IdAt(s, p + 9) then Some(p + 9)
    else None
  }

  /** The unanchored search: the first start position, from `p` on, where
      the pattern matches. */
  function FirstMatch(s: string, p: nat): (r: Option<nat>)
    requires p <= |s|
    ensures r.Some? ==> IdAt(s, r.value)
    ensures r.None? <==> forall q | p <= q <= |s| :: MatchAt(s, q).None?
    ensures r.Some? ==> exists q | p <= q <= |s| ::
      MatchAt(s, q) == r && forall q' | p <= q' < q :: MatchAt(s, q').None?
    decreases |s| - p
  {
    match MatchAt(s, p)
    case Some(i) => Some(i)
    case None => if p == |s| then None else FirstMatch(s, p + 1)
  }

  /** `extractVideoId(url)`: the capture group of the first match, or `None`
      where the source returns null. */
  function ExtractVideoId(url: string): (r: Option<string>)
    ensures r.Some? ==> IsVideoId(r.value)
    ensures r.None? <==> forall q | 0 <= q <= |url| :: MatchAt(url, q).None?
    ensures r.Some? ==> exists q | 0 <= q <= |url| ::
      MatchAt(url, q).Some? && IdAt(url, MatchAt(url, q).value)
      && r.value == url[MatchAt(url, q).value..MatchAt(url, q).value + 11]
      && forall q' | 0 <= q' < q :: MatchAt(url, q').None?
  {
    match FirstMatch(url, 0)
    case Some(i) => Some(url[i..i + 11])
    case None => None
  }

  /** Every match starts at a 'y', the first letter of both host names. */
  lemma MatchStartsAtY(s: string, p: nat)
    requires p <= |s|
    requires MatchAt(s, p).Some?
    ensures p < |s| && s[p] == 'y'
  {
    if OccursAt(s, "youtube.com/", p) {
      assert s[p..p + 12][0] == s[p];
    } else {
      assert s[p..p + 9][0] == s[p];
    }
  }

  /** Start positions where nothing matches are skipped over. */
  lemma {:induction false} SkipNoMatch(s: string, p: nat, p': nat)
    requires p <= p' <= |s|
    requires forall k | p <= k < p' :: MatchAt(s, k).None?
    ensures FirstMatch(s, p) == FirstMatch(s, p')
    decreases p' - p
  {
    if p < p' {
      SkipNoMatch(s, p + 1, p');
    }
  }

  /** A text without the letter 'y' holds no video identifier. */
  lemma {:induction false} NoYNoId(url: string)
    requires forall k | 0 <= k < |url| :: url[k] != 'y'
    ensures ExtractVideoId(url) == None
  {
    forall k | 0 <= k <= |url| ensures MatchAt(url, k).None? {
      if MatchAt(url, k).Some? {
        MatchStartsAtY(url, k);
      }
    }
    SkipNoMatch(url, 0, |url|);
  }

  /** Text before the host that cannot start a match leaves the result to
      the first attempt at the host. */
  lemma HostFirst(pre: string, s: string)
    requires |pre| <= |s| && s[..|pre|] == pre
    requires forall k | 0 <= k < |pre| :: pre[k] != 'y'
    requires MatchAt(s, |pre|).Some?
    ensures ExtractVideoId(s) == Some(s[MatchAt(s, |pre|).value..MatchAt(s, |pre|).value + 11])
  {
    forall k | 0 <= k < |pre| ensures MatchAt(s, k).None? {
      if MatchAt(s, k).Some? {
        MatchStartsAtY(s, k);
      }
    }
    SkipNoMatch(s, 0, |pre|);
  }

  /** A short link: "youtu.be/" and the identifier. */
  lemma ShortLinkId(pre: string, id: string, rest: string)
    requires forall k | 0 <= k < |pre| :: pre[k] != 'y'
    requires IsVideoId(id)
    ensures ExtractVideoId(pre + "youtu.be/" + id + rest) == Some(id)
  {
    var s := pre + "youtu.be/" + id + rest;
    var p := |pre|;
    assert s[..p] == pre;
    assert s[p..p + 9] == "youtu.be/";
    assert s[p + 5] == '.';
    assert !OccursAt(s, "youtube.com/", p) by {
      if p + 12 <= |s| {
        assert s[p..p + 12][5] == s[p + 5];
      }
    }
    assert s[p + 9..p + 9 + 11] == id;
    assert MatchAt(s, p) == Some(p + 9);
    HostFirst(pre, s);
  }

  /** No slash at or after `i`. */
  predicate NoSlashFrom(s: string, i: nat) {
    forall k | i <= k < |s| :: s[k] != '/'
  }

  /** With no slash after the host, the path alternative cannot apply. */
  lemma PathNeedsTwoSlashes(s: string, q: nat)
    requires q <= |s|
    requires forall k, l | q <= k < l < |s| :: !(s[k] == '/' && s[l] == '/')
    ensures PathAlternative(s, q).None?
  {
    var e := SlashEnd(s, q);
    if q < e < |s| {
      var le := LineEnd(s, e + 1);
      forall u | e + 2 <= u <= le ensures !TailAt(s, SlashTail, u) {
        if u < |s| {
          assert !(s[e] == '/' && s[u] == '/');
        }
      }
    }
  }

  /** A watch link: "youtube.com/watch?v=", the identifier, and the rest of
      the URL, which holds no slash and no `?` or `&` directly followed by
      `v` (other query parameters such as `&t=42s` are fine). */
  lemma WatchLinkId(pre: string, id: string, rest: string)
    requires forall k | 0 <= k < |pre| :: pre[k] != 'y'
    requires IsVideoId(id)
    requires forall k | 0 <= k < |rest| :: rest[k] != '/'
    requires forall k | 0 <= k < |rest| - 1 :: !((rest[k] == '?' || rest[k] == '&') && rest[k + 1] == 'v')
    ensures ExtractVideoId(pre + "youtube.com/watch?v=" + id + rest) == Some(id)
  {
    var s := pre + "youtube.com/watch?v=" + id + rest;
    var p := |pre|;
    var q := p + 12;
    WatchLinkLayout(pre, id, rest, s);
    PathNeedsTwoSlashes(s, q);
    assert s[q] == s[q..q + 8][0];
    NotAPathPrefix(s, q);
    WatchQuery(s, q, id, rest);
    FallsToQuery(s, p);
    HostFirst(pre, s);
  }

  /** A path starting with 'w' is none of `v/`, `embed/` and `e/`. */
  lemma NotAPathPrefix(s: string, q: nat)
    requires q < |s| && s[q] == 'w'
    ensures !OccursAt(s, "v/", q) && !OccursAt(s, "embed/", q) && !OccursAt(s, "e/", q)
  {
    if q + 2 <= |s| {
      assert s[q..q + 2][0] == s[q];
    }
    if q + 6 <= |s| {
      assert s[q..q + 6][0] == s[q];
    }
  }

  /** After "youtube.com/", when none of the path, `v/`, `embed/` and `e/`
      alternatives starts, the query alternative decides. */
  lemma FallsToQuery(s: string, p: nat)
    requires OccursAt(s, "youtube.com/", p)
    requires PathAlternative(s, p + 12).None?
    requires !OccursAt(s, "v/", p + 12) && !OccursAt(s, "embed/", p + 12) && !OccursAt(s, "e/", p + 12)
    ensures MatchAt(s, p) == QueryAlternative(s, p + 12)
  {
  }

  /** Where the pieces of a watch link sit. */
  lemma WatchLinkLayout(pre: string, id: string, rest: string, s: string)
    requires s == pre + "youtube.com/watch?v=" + id + rest
    requires forall k | 0 <= k < |rest| :: rest[k] != '/'
    requires IsVideoId(id)
    ensures |s| == |pre| + 20 + 11 + |rest|
    ensures s[..|pre|] == pre && OccursAt(s, "youtube.com/", |pre|)
    ensures s[|pre| + 12..|pre| + 20] == "watch?v=" && s[|pre| + 20..|pre| + 31] == id
    ensures s[|pre| + 31..] == rest
    ensures forall k, l | |pre| + 12 <= k < l < |s| :: !(s[k] == '/' && s[l] == '/')
  {
    var p := |pre|;
    assert s[p..p + 12] == "youtube.com/";
    forall k | p + 12 <= k < |s| ensures s[k] != '/' {
      if k < p + 20 {
        assert s[k] == s[p + 12..p + 20][k - p - 12];
      } else if k < p + 31 {
        assert s[k] == id[k - p - 20];
      } else {
        assert s[k] == rest[k - p - 31];
      }
    }
  }

  /** The query alternative on a watch link settles on the `?` of `?v=`:
      no later position starts another `?v=` or `&v=`. */
  lemma WatchQuery(s: string, q: nat, id: string, rest: string)
    requires q + 8 + 11 <= |s|
    requires s[q..q + 8] == "watch?v=" && s[q + 8..q + 19] == id && s[q + 19..] == rest
    requires IsVideoId(id)
    requires forall k | 0 <= k < |rest| - 1 :: !((rest[k] == '?' || rest[k] == '&') && rest[k + 1] == 'v')
    ensures QueryAlternative(s, q) == Some(q + 8)
  {
    var t := q + 5;
    assert s[t] == '?' && s[t + 1] == 'v' && s[t + 2] == '=' by {
      assert s[t] == s[q..q + 8][5];
      assert s[t + 1] == s[q..q + 8][6];
      assert s[t + 2] == s[q..q + 8][7];
    }
    assert TailAt(s, QueryTail, t);
    forall k | q <= k < t ensures !IsLineTerminator(s[k]) {
      assert s[k] == s[q..q + 8][k - q];
    }
    var e := LineEnd(s, q);
    assert t < e;
    forall u | t < u <= e ensures !TailAt(s, QueryTail, u) {
      if u < q + 8 {
        assert s[u] == s[q..q + 8][u - q];
      } else if u < q + 19 {
        assert s[u] == id[u - q - 8];
      } else if u + 1 < |s| {
        assert s[u] == rest[u - q - 19] && s[u + 1] == rest[u - q - 18];
      }
    }
    assert LastTail(s, QueryTail, q, e) == Some(t);
  }

  /** An embed link: "youtube.com/embed/" and the identifier, with no
      further slash. */
  lemma EmbedLinkId(pre: string, id: string, rest: string)
    requires forall k | 0 <= k < |pre| :: pre[k] != 'y'
    requires IsVideoId(id)
    requires forall k | 0 <= k < |rest| :: rest[k] != '/'
    ensures ExtractVideoId(pre + "youtube.com/embed/" + id + rest) == Some(id)
  {
    var s := pre + "youtube.com/embed/" + id + rest;
    var p := |pre|;
    var q := p + 12;
    assert s[..p] == pre;
    assert s[p..p + 12] == "youtube.com/";
    assert s[q..q + 6] == "embed/";
    assert s[q + 6..q + 17] == id;
    assert !OccursAt(s, "v/", q) by {
      assert s[q..q + 2][0] == s[q..q + 6][0];
    }
    EmbedPathFails(s, q, id, rest);
    assert MatchAt(s, p) == Some(q + 6);
    HostFirst(pre, s);
  }

  /** On an embed link the path alternative finds no second slash before
      an identifier. */
  lemma EmbedPathFails(s: string, q: nat, id: string, rest: string)
    requires q + 6 + 11 <= |s|
    requires s[q..q + 6] == "embed/" && s[q + 6..q + 17] == id && s[q + 17..] == rest
    requires IsVideoId(id)
    requires forall k | 0 <= k < |rest| :: rest[k] != '/'
    ensures PathAlternative(s, q).None?
  {
    forall k | q + 6 <= k < |s| ensures s[k] != '/' {
      if k < q + 17 {
        assert s[k] == id[k - q - 6];
      } else {
        assert s[k] == rest[k - q - 17];
      }
    }
    assert s[q + 5] == s[q..q + 6][5];
    PathNeedsTwoSlashes(s, q);
  }

  /** "youtube.com/v/" and an identifier give that identifier when no slash
      follows it. */
  lemma VLinkId(pre: string, id: string, rest: string)
    requires forall k | 0 <= k < |pre| :: pre[k] != 'y'
    requires IsVideoId(id)
    requires forall k | 0 <= k < |rest| :: rest[k] != '/'
    ensures ExtractVideoId(pre + "youtube.com/v/" + id + rest) == Some(id)
  {
    var s := pre + "youtube.com/v/" + id + rest;
    var p := |pre|;
    var q := p + 12;
    assert s[..p] == pre;
    assert s[p..p + 12] == "youtube.com/";
    assert s[q..q + 2] == "v/";
    assert s[q + 2..q + 13] == id;
    assert s[q + 13..] == rest;
    ShortPathFails(s, q, 'v', id, rest);
    assert MatchAt(s, p) == Some(q + 2);
    HostFirst(pre, s);
  }

  /** "youtube.com/e/" and an identifier give that identifier when no slash
      follows it: the `v/` and `embed/` alternatives fail first. */
  lemma ELinkId(pre: string, id: string, rest: string)
    requires forall k | 0 <= k < |pre| :: pre[k] != 'y'
    requires IsVideoId(id)
    requires forall k | 0 <= k < |rest| :: rest[k] != '/'
    ensures ExtractVideoId(pre + "youtube.com/e/" + id + rest) == Some(id)
  {
    var s := pre + "youtube.com/e/" + id + rest;
    var p := |pre|;
    var q := p + 12;
    assert s[..p] == pre;
    assert s[p..p + 12] == "youtube.com/";
    assert s[q..q + 2] == "e/";
    assert s[q + 2..q + 13] == id;
    assert s[q + 13..] == rest;
    ShortPathFails(s, q, 'e', id, rest);
    assert !OccursAt(s, "v/", q) by {
      assert s[q..q + 2][0] == 'e';
    }
    assert !OccursAt(s, "embed/", q) by {
      if q + 6 <= |s| {
        assert s[q..q + 6][1] == s[q..q + 2][1];
      }
    }
    assert MatchAt(s, p) == Some(q + 2);
    HostFirst(pre, s);
  }

  /** After a one-letter segment such as "v/" or "e/", the path alternative
      finds no second slash before an identifier. */
  lemma ShortPathFails(s: string, q: nat, c: char, id: string, rest: string)
    requires c != '/' && q + 2 + 11 <= |s|
    requires s[q..q + 2] == [c, '/'] && s[q + 2..q + 13] == id && s[q + 13..] == rest
    requires IsVideoId(id)
    requires forall k | 0 <= k < |rest| :: rest[k] != '/'
    ensures PathAlternative(s, q).None?
  {
    forall k | q + 2 <= k < |s| ensures s[k] != '/' {
      if k < q + 13 {
        assert s[k] == id[k - q - 2];
      } else {
        assert s[k] == rest[k - q - 13];
      }
    }
    assert s[q] == s[q..q + 2][0];
    assert s[q + 1] == s[q..q + 2][1];
    PathNeedsTwoSlashes(s, q);
  }

  /** A link with two path segments before the identifier, such as
      "youtube.com/user/name/ID": the path alternative is tried first, so
      the identifier after the last slash on the line is taken even when
      the first segment is itself a `watch?v=` query. */
  lemma PathLinkId(pre: string, a: string, b: string, id: string, rest: string)
    requires forall k | 0 <= k < |pre| :: pre[k] != 'y'
    requires a != [] && forall k | 0 <= k < |a| :: a[k] != '/'
    requires b != [] && forall k | 0 <= k < |b| :: !IsLineTerminator(b[k])
    requires IsVideoId(id)
    requires forall k | 0 <= k < |rest| :: rest[k] != '/'
    ensures ExtractVideoId(pre + "youtube.com/" + a + "/" + b + "/" + id + rest) == Some(id)
  {
    var s := pre + "youtube.com/" + a + "/" + b + "/" + id + rest;
    var p := |pre|;
    var q := p + 12;
    var e := q + |a|;
    var t := e + 1 + |b|;
    PathLinkLayout(pre, a, b, id, rest, s);
    forall k | e + 1 <= k < t ensures !IsLineTerminator(s[k]) {
      assert s[k] == b[k - e - 1];
    }
    PathAlternativeAt(s, q, e, t);
    assert MatchAt(s, p) == Some(t + 1);
    HostFirst(pre, s);
  }

  /** The path alternative on text laid out as a first segment up to the
      slash at `e`, a second segment on one line up to the slash at `t`,
      then an identifier and no further slash. */
  lemma PathAlternativeAt(s: string, q: nat, e: nat, t: nat)
    requires q < e && e + 2 <= t < |s|
    requires forall k | q <= k < e :: s[k] != '/'
    requires s[e] == '/'
    requires forall k | e + 1 <= k < t :: !IsLineTerminator(s[k])
    requires SlashIdAt(s, t)
    requires forall k | t < k < |s| :: s[k] != '/'
    ensures PathAlternative(s, q) == Some(t + 1)
  {
    assert SlashEnd(s, q) == e;
    var le := LineEnd(s, e + 1);
    assert t <= le;
    assert TailAt(s, SlashTail, t);
    assert LastTail(s, SlashTail, e + 2, le) == Some(t);
  }

  /** Where the pieces of a two-segment link sit. */
  lemma PathLinkLayout(pre: string, a: string, b: string, id: string, rest: string, s: string)
    requires s == pre + "youtube.com/" + a + "/" + b + "/" + id + rest
    requires forall k | 0 <= k < |a| :: a[k] != '/'
    requires IsVideoId(id)
    requires forall k | 0 <= k < |rest| :: rest[k] != '/'
    ensures s[..|pre|] == pre && OccursAt(s, "youtube.com/", |pre|)
    ensures forall k | |pre| + 12 <= k < |pre| + 12 + |a| :: s[k] == a[k - |pre| - 12]
    ensures s[|pre| + 12 + |a|] == '/'
    ensures forall k | |pre| + 13 + |a| <= k < |pre| + 13 + |a| + |b| :: s[k] == b[k - |pre| - 13 - |a|]
    ensures s[|pre| + 13 + |a| + |b|] == '/'
    ensures s[|pre| + 14 + |a| + |b|..|pre| + 25 + |a| + |b|] == id
    ensures forall k | |pre| + 14 + |a| + |b| <= k < |s| :: s[k] != '/'
  {
    var p := |pre|;
    assert s[p..p + 12] == "youtube.com/";
    var i := p + 14 + |a| + |b|;
    forall k | i <= k < |s| ensures s[k] != '/' {
      if k < i + 11 {
        assert s[k] == id[k - i];
      } else {
        assert s[k] == rest[k - i - 11];
      }
    }
  }

  /** "https://www.youtube.com/watch?v=dQw4w9WgXcQ" gives "dQw4w9WgXcQ". */
  lemma ExampleWatchLink()
    ensures ExtractVideoId("https://www.youtube.com/watch?v=dQw4w9WgXcQ") == Some("dQw4w9WgXcQ")
  {
    ExampleId();
    WatchLinkId("https://www.", "dQw4w9WgXcQ", "");
    ExampleWatchText();
  }

  lemma ExampleWatchText()
    ensures "https://www." + "youtube.com/watch?v=" + "dQw4w9WgXcQ" + "" == "https://www.youtube.com/watch?v=dQw4w9WgXcQ"
  {
  }

  /** "https://youtu.be/dQw4w9WgXcQ?t=10" gives "dQw4w9WgXcQ". */
  lemma ExampleShortLink()
    ensures ExtractVideoId("https://youtu.be/dQw4w9WgXcQ?t=10") == Some("dQw4w9WgXcQ")
  {
    ExampleId();
    ShortLinkId("https://", "dQw4w9WgXcQ", "?t=10");
    ExampleShortText();
  }

  lemma ExampleShortText()
    ensures "https://" + "youtu.be/" + "dQw4w9WgXcQ" + "?t=10" == "https://youtu.be/dQw4w9WgXcQ?t=10"
  {
  }

  lemma ExampleId()
    ensures IsVideoId("dQw4w9WgXcQ")
  {
  }

  /** "not a url" gives nothing. */
  lemma ExampleNotAUrl()
    ensures ExtractVideoId("not a url") == None
  {
    NoYNoId("not a url");
  }
}
