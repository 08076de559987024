/**
 * Time codes in video descriptions (`H:MM:SS` or `M:SS`): the leading
 * time-code pattern the scanner looks for and `convertTimestampToSeconds`
 * in app/api/youtube/route.js.
 */
module TimeCode {
  import opened Wrappers
  import opened JsStrings

  /** Text made of ASCII digits and colons only. */
  predicate IsClockText(ts: string) {
    forall i | 0 <= i < |ts| :: IsDigit(ts[i]) || ts[i] == ':'
  }

  /** Every piece of a clock text split at its colons is a digit string. */
  lemma ClockFieldsAreDigits(ts: string)
    requires IsClockText(ts)
    ensures forall k | 0 <= k < |Split(ts, ':')| :: AllDigits(Split(ts, ':')[k])
  {
    var p := Split(ts, ':');
    SplitPiecesFromSource(ts, ':');
    forall k, i | 0 <= k < |p| && 0 <= i < |p[k]| ensures IsDigit(p[k][i]) {
      assert p[k][i] in p[k];
      var j :| 0 <= j < |ts| && ts[j] == p[k][i];
    }
  }

  /** `ts.split(":").map(Number)` followed by the field-count dispatch:
      three fields are hours, minutes and seconds, two are minutes and
      seconds, and any other count falls back to 0. `Number` is applied to
      digit strings only, which is all the scanner ever passes. */
  function ConvertTimestampToSeconds(ts: string): (r: nat)
    requires IsClockText(ts)
    ensures CountChar(ts, ':') != 1 && CountChar(ts, ':') != 2 ==> r == 0
  {
    var p := Split(ts, ':');
    ClockFieldsAreDigits(ts);
    SplitLength(ts, ':');
    if |p| == 3 then DigitsValue(p[0]) * 3600 + DigitsValue(p[1]) * 60 + DigitsValue(p[2])
    else if |p| == 2 then DigitsValue(p[0]) * 60 + DigitsValue(p[1])
    else 0
  }

  /** `M:SS`: minutes times sixty plus seconds. */
  lemma {:induction false} TwoFieldsDecode(m: string, s: string)
    requires AllDigits(m) && AllDigits(s)
    ensures IsClockText(m + ":" + s) && Split(m + ":" + s, ':') == [m, s]
    ensures ConvertTimestampToSeconds(m + ":" + s) == DigitsValue(m) * 60 + DigitsValue(s)
  {
    assert ':' !in m && ':' !in s;
    SplitAtFirstSeparator(m, ':', s);
    SplitWithoutSeparator(s, ':');
  }

  /** `H:MM:SS`: hours times 3600 plus minutes times sixty plus seconds. */
  lemma {:induction false} ThreeFieldsDecode(h: string, m: string, s: string)
    requires AllDigits(h) && AllDigits(m) && AllDigits(s)
    ensures IsClockText(h + ":" + m + ":" + s) && Split(h + ":" + m + ":" + s, ':') == [h, m, s]
    ensures ConvertTimestampToSeconds(h + ":" + m + ":" + s)
         == DigitsValue(h) * 3600 + DigitsValue(m) * 60 + DigitsValue(s)
  {
    assert ':' !in h && ':' !in m && ':' !in s;
    assert h + ":" + m + ":" + s == h + [':'] + (m + [':'] + s);
    SplitAtFirstSeparator(h, ':', m + [':'] + s);
    SplitAtFirstSeparator(m, ':', s);
    SplitWithoutSeparator(s, ':');
  }

  /** A concrete `M:SS` value, through the two-field decoding. */
  lemma MinSecValue(code: string, m: string, sec: string, v: int)
    requires code == m + ":" + sec && AllDigits(m) && AllDigits(sec)
    requires DigitsValue(m) * 60 + DigitsValue(sec) == v
    ensures IsClockText(code) && ConvertTimestampToSeconds(code) == v
  {
    TwoFieldsDecode(m, sec);
  }

  /** A concrete `H:MM:SS` value, through the three-field decoding. */
  lemma HoursValue(code: string, h: string, m: string, sec: string, v: int)
    requires code == h + ":" + m + ":" + sec && AllDigits(h) && AllDigits(m) && AllDigits(sec)
    requires DigitsValue(h) * 3600 + DigitsValue(m) * 60 + DigitsValue(sec) == v
    ensures IsClockText(code) && ConvertTimestampToSeconds(code) == v
  {
    ThreeFieldsDecode(h, m, sec);
  }

  /** `\d{1,2}:\d{2}` as a set of strings. */
  predicate IsMinSec(t: string) {
    || (|t| == 4 && IsDigit(t[0]) && t[1] == ':' && IsDigit(t[2]) && IsDigit(t[3]))
    || (|t| == 5 && IsDigit(t[0]) && IsDigit(t[1]) && t[2] == ':' && IsDigit(t[3]) && IsDigit(t[4]))
  }

  /** `(\d{1,2}:)?\d{1,2}:\d{2}` as a set of strings. */
  predicate IsTimeCode(t: string) {
    || IsMinSec(t)
    || (|t| >= 2 && IsDigit(t[0]) && t[1] == ':' && IsMinSec(t[2..]))
    || (|t| >= 3 && IsDigit(t[0]) && IsDigit(t[1]) && t[2] == ':' && IsMinSec(t[3..]))
  }

  /** The RegExp engine matching `\d{1,2}:\d{2}` at index `i`: the quantifier
      tries two digits before one. Returns the end of the match. */
  function MinSecAt(s: string, i: nat): (r: Option<nat>)
    ensures r.Some? ==> i <= r.value <= |s| && IsMinSec(s[i..r.value])
    ensures r.None? ==> forall k | i <= k <= |s| :: !IsMinSec(s[i..k])
  {
    if i + 5 <= |s| && IsDigit(s[i]) && IsDigit(s[i + 1]) && s[i + 2] == ':'
       && IsDigit(s[i + 3]) && IsDigit(s[i + 4])
    then Some(i + 5)
    else if i + 4 <= |s| && IsDigit(s[i]) && s[i + 1] == ':' && IsDigit(s[i + 2]) && IsDigit(s[i + 3])
    then Some(i + 4)
    else None
  }

  /** The RegExp engine matching `(\d{1,2}:)?\d{1,2}:\d{2}` at index `i`, in
      its backtracking order: the optional hours group is tried first, with
      two digits before one, and dropped only when nothing follows it.
      Returns the end of the first match found, which is the longest time
      code starting at `i`; it finds one exactly when some prefix of
      `s[i..]` is a time code. */
  function TimeCodeAt(s: string, i: nat): (r: Option<nat>)
    ensures r.Some? ==> i <= r.value <= |s| && IsTimeCode(s[i..r.value])
    ensures r.Some? ==> forall k | r.value < k <= |s| :: !IsTimeCode(s[i..k])
    ensures r.None? <==> forall k | i <= k <= |s| :: !IsTimeCode(s[i..k])
  {
    if i + 3 <= |s| && IsDigit(s[i]) && IsDigit(s[i + 1]) && s[i + 2] == ':' && MinSecAt(s, i + 3).Some?
    then
      var k := MinSecAt(s, i + 3).value;
      assert s[i..k][3..] == s[i + 3..k];
      LongestWithHours(s, i, 3, k);
      Some(k)
    else if i + 2 <= |s| && IsDigit(s[i]) && s[i + 1] == ':' && MinSecAt(s, i + 2).Some?
    then
      var k := MinSecAt(s, i + 2).value;
      assert s[i..k][2..] == s[i + 2..k];
      LongestWithHours(s, i, 2, k);
      Some(k)
    else
      var r := MinSecAt(s, i);
      TimeCodeAtFails(s, i);
      assert r.Some? ==> forall k' | r.value < k' <= |s| :: !IsTimeCode(s[i..k']) by {
        if r.Some? {
          LongestWithoutHours(s, i, r.value);
        }
      }
      r
  }

  /** With an hours field of `h - 1` digits, the minutes and seconds that
      `MinSecAt` finds after it end the longest time code at `i`. */
  lemma LongestWithHours(s: string, i: nat, h: nat, k: nat)
    requires h == 2 || h == 3
    requires i + h <= |s| && s[i + h - 1] == ':' && (h == 3 ==> IsDigit(s[i + 1]))
    requires MinSecAt(s, i + h) == Some(k)
    ensures forall k' | k < k' <= |s| :: !IsTimeCode(s[i..k'])
  {
    forall k' | k < k' <= |s| ensures !IsTimeCode(s[i..k']) {
      var t := s[i..k'];
      assert t[h..] == s[i + h..k'];
      assert |t| > 2 ==> t[2..] == s[i + 2..k'];
      assert |t| > 3 ==> t[3..] == s[i + 3..k'];
    }
  }

  /** With no hours field possible, the `\d{1,2}:\d{2}` that `MinSecAt`
      finds is the longest time code at `i`. */
  lemma LongestWithoutHours(s: string, i: nat, k: nat)
    requires MinSecAt(s, i) == Some(k)
    requires forall k' | i <= k' <= |s| :: IsTimeCode(s[i..k']) ==> IsMinSec(s[i..k'])
    ensures forall k' | k < k' <= |s| :: !IsTimeCode(s[i..k'])
  {
  }

  /** When neither hours-group alternative applies, a time code starting at
      `i` would have to be a bare `\d{1,2}:\d{2}`. */
  lemma TimeCodeAtFails(s: string, i: nat)
    requires !(i + 3 <= |s| && IsDigit(s[i]) && IsDigit(s[i + 1]) && s[i + 2] == ':' && MinSecAt(s, i + 3).Some?)
    requires !(i + 2 <= |s| && IsDigit(s[i]) && s[i + 1] == ':' && MinSecAt(s, i + 2).Some?)
    ensures forall k | i <= k <= |s| :: IsTimeCode(s[i..k]) ==> IsMinSec(s[i..k])
  {
    forall k | i <= k <= |s| && IsTimeCode(s[i..k]) ensures IsMinSec(s[i..k]) {
      var t := s[i..k];
      assert |t| >= 2 ==> t[2..] == s[i + 2..k];
      assert |t| >= 3 ==> t[3..] == s[i + 3..k];
    }
  }

  /** A time code is made of digits and colons only. */
  lemma TimeCodeIsClockText(t: string)
    requires IsTimeCode(t)
    ensures IsClockText(t) && IsDigit(t[0]) && IsDigit(t[|t| - 1])
  {
  }

  /** A time code cut out of a longer text begins and ends with a digit of it. */
  lemma TimeCodeSlice(s: string, i: nat, j: nat)
    requires i <= j <= |s| && IsTimeCode(s[i..j])
    ensures i < j && IsDigit(s[i]) && IsDigit(s[j - 1]) && IsClockText(s[i..j])
  {
    var t := s[i..j];
    TimeCodeIsClockText(t);
    assert t[0] == s[i] && t[|t| - 1] == s[j - 1];
  }

  /** A well-formed time code is clock text with one or two colons, so it
      never reaches the fallback branch of the decoder. */
  lemma TimeCodeNeverFallsBack(t: string)
    requires IsTimeCode(t)
    ensures IsClockText(t)
    ensures CountChar(t, ':') == 1 || CountChar(t, ':') == 2
  {
    if IsMinSec(t) {
      MinSecDecodes(t);
    } else {
      HoursDecode(t);
    }
  }

  /** `M:SS` or `MM:SS` decodes to minutes*60 + seconds. */
  lemma MinSecDecodes(t: string)
    requires IsMinSec(t)
    ensures IsClockText(t) && CountChar(t, ':') == 1
    ensures ConvertTimestampToSeconds(t) == DigitsValue(t[..|t| - 3]) * 60 + DigitsValue(t[|t| - 2..])
  {
    var m, s := t[..|t| - 3], t[|t| - 2..];
    MinSecFields(t);
    TwoFieldsDecode(m, s);
    SplitLength(m + ":" + s, ':');
  }

  /** The two digit fields of `M:SS` or `MM:SS` around its colon. */
  lemma MinSecFields(t: string)
    requires IsMinSec(t)
    ensures AllDigits(t[..|t| - 3]) && AllDigits(t[|t| - 2..])
    ensures t == t[..|t| - 3] + ":" + t[|t| - 2..]
  {
    if |t| == 4 {
      assert t[..1] == [t[0]];
    } else {
      assert t[..2] == [t[0], t[1]];
    }
    assert t[|t| - 2..] == [t[|t| - 2], t[|t| - 1]];
  }

  /** A time code with an hours field decodes to
      hours*3600 + minutes*60 + seconds. */
  lemma HoursDecode(t: string)
    requires IsTimeCode(t) && !IsMinSec(t)
    ensures IsClockText(t) && CountChar(t, ':') == 2
    ensures var h := |t| - |MinSecPart(t)| - 1;
      ConvertTimestampToSeconds(t)
        == DigitsValue(t[..h]) * 3600 + DigitsValue(t[h + 1..|t| - 3]) * 60 + DigitsValue(t[|t| - 2..])
  {
    var h := |t| - |MinSecPart(t)| - 1;
    var hs, m, s := t[..h], t[h + 1..|t| - 3], t[|t| - 2..];
    HoursFields(t);
    ThreeFieldsDecode(hs, m, s);
    SplitLength(hs + ":" + m + ":" + s, ':');
  }

  /** The three digit fields of `H:MM:SS` or `HH:MM:SS` around its colons. */
  lemma HoursFields(t: string)
    requires IsTimeCode(t) && !IsMinSec(t)
    ensures var h := |t| - |MinSecPart(t)| - 1;
      && 1 <= h <= 2
      && AllDigits(t[..h]) && AllDigits(t[h + 1..|t| - 3]) && AllDigits(t[|t| - 2..])
      && t == t[..h] + ":" + t[h + 1..|t| - 3] + ":" + t[|t| - 2..]
  {
    if |t| >= 2 && IsDigit(t[0]) && t[1] == ':' && IsMinSec(t[2..]) {
      HoursSplit(t, 1);
    } else {
      HoursSplit(t, 2);
    }
  }

  /** An hours field, a colon and an `M:SS` or `MM:SS` tail. */
  lemma HoursSplit(t: string, h: nat)
    requires 1 <= h < |t| && t[h] == ':' && IsMinSec(t[h + 1..])
    requires forall i | 0 <= i < h :: IsDigit(t[i])
    ensures AllDigits(t[..h]) && AllDigits(t[h + 1..|t| - 3]) && AllDigits(t[|t| - 2..])
    ensures t == t[..h] + ":" + t[h + 1..|t| - 3] + ":" + t[|t| - 2..]
  {
    var ms := t[h + 1..];
    assert ms[|ms| - 3] == ':' && IsDigit(ms[|ms| - 2]) && IsDigit(ms[|ms| - 1]);
    assert forall i | 0 <= i < |ms| - 3 :: IsDigit(ms[i]);
    assert forall i | h + 1 <= i < |t| - 3 :: t[i] == ms[i - h - 1];
    assert t[|t| - 3] == ms[|ms| - 3] && t[|t| - 2] == ms[|ms| - 2] && t[|t| - 1] == ms[|ms| - 1];
    AroundTwoColons(t, h, |t| - 3);
  }

  /** A text is the concatenation of the pieces around two of its colons. */
  lemma AroundTwoColons(t: string, h: nat, k: nat)
    requires h < k < |t| && t[h] == ':' && t[k] == ':'
    ensures t == t[..h] + ":" + t[h + 1..k] + ":" + t[k + 1..]
  {
    var r := t[..h] + ":" + t[h + 1..k] + ":" + t[k + 1..];
    assert |r| == |t|;
    forall i | 0 <= i < |t| ensures r[i] == t[i] {
      if i < h {
      } else if i == h {
      } else if i < k {
        assert r[i] == t[h + 1..k][i - h - 1];
      } else if i == k {
      } else {
        assert r[i] == t[k + 1..][i - k - 1];
      }
    }
  }

  /** The `\d{1,2}:\d{2}` tail of a time code. */
  function MinSecPart(t: string): (ms: string)
    requires IsTimeCode(t)
    ensures IsMinSec(ms) && |ms| < |t| + 1 && ms == t[|t| - |ms|..]
  {
    if IsMinSec(t) then t
    else if |t| >= 2 && IsDigit(t[0]) && t[1] == ':' && IsMinSec(t[2..]) then t[2..]
    else t[3..]
  }
}
