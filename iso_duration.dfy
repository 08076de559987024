/**
 * `parseISO8601Duration` in app/api/youtube/route.js: the unanchored pattern
 * `PT(?:(\d+)H)?(?:(\d+)M)?(?:(\d+)S)?` and the sum of its groups in seconds.
 */
module IsoDuration {
  import opened Wrappers
  import opened JsStrings

  /** Length of the run of digits at the start of `t` (what a greedy `\d+`
      consumes). */
  function DigitRun(t: string): (n: nat)
    ensures n <= |t| && AllDigits(t[..n]) && (n < |t| ==> !IsDigit(t[n]))
  {
    if t != [] && IsDigit(t[0]) then
      var n := 1 + DigitRun(t[1..]);
      assert t[..n] == [t[0]] + t[1..][..n - 1];
      n
    else 0
  }

  lemma {:induction false} DigitRunOver(d: string, rest: string)
    requires AllDigits(d)
    ensures DigitRun(d + rest) == |d| + DigitRun(rest)
  {
    if d != [] {
      var t := d + rest;
      assert t[0] == d[0] && IsDigit(d[0]);
      assert t[1..] == d[1..] + rest;
      DigitRunOver(d[1..], rest);
      assert DigitRun(t) == 1 + DigitRun(t[1..]);
    } else {
      assert d + rest == rest;
    }
  }

  /** One optional group `(?:(\d+)U)?` at the start of `t`: the number it
      captured, if it matched, and the text after it. Backtracking into `\d+`
      cannot help, since the unit letter is not a digit, so the group matches
      exactly when the whole digit run is non-empty and followed by `unit`. */
  function UnitGroup(t: string, unit: char): (g: (Option<nat>, string))
    requires !IsDigit(unit)
    ensures g.0.None? ==> g.1 == t
    ensures g.0.None? ==> forall k | 0 < k < |t| :: !(AllDigits(t[..k]) && t[k] == unit)
    ensures g.0.Some? ==> |g.1| < |t| && t == t[..|t| - |g.1| - 1] + [unit] + g.1
    ensures g.0.Some? ==> var k := |t| - |g.1| - 1;
      0 < k && AllDigits(t[..k]) && g.0.value == DigitsValue(t[..k])
  {
    var j := DigitRun(t);
    if 0 < j < |t| && t[j] == unit then
      assert t == t[..j] + [unit] + t[j + 1..];
      (Some(DigitsValue(t[..j])), t[j + 1..])
    else
      NoGroup(t, unit);
      (None, t)
  }

  /** A run of digits followed by the unit letter is the whole digit run. */
  lemma NoGroup(t: string, unit: char)
    requires !IsDigit(unit)
    requires !(0 < DigitRun(t) < |t| && t[DigitRun(t)] == unit)
    ensures forall k | 0 < k < |t| :: !(AllDigits(t[..k]) && t[k] == unit)
  {
    var j := DigitRun(t);
    forall k | 0 < k < |t| && AllDigits(t[..k]) ensures t[k] != unit {
      assert forall i | 0 <= i < k :: t[..k][i] == t[i];
      if k < j {
        assert t[..j][k] == t[k];
      }
    }
  }

  function OrZero(n: Option<nat>): nat {
    if n.Some? then n.value else 0
  }

  /** `parseISO8601Duration`: `None` when the string contains no "PT", where
      `dur.match` returns null and reading `m[1]` throws; otherwise hours,
      minutes and seconds in seconds, an absent group counting as 0. The
      match is unanchored, so it starts at the first "PT" anywhere. */
  function ParseIsoDuration(dur: string): (r: Option<nat>)
    ensures r.None? <==> forall j | 0 <= j <= |dur| :: !OccursAt(dur, "PT", j)
  {
    match IndexOf(dur, "PT")
    case None => None
    case Some(p) => Some(GroupsSeconds(dur[p + 2..]))
  }

  /** The three optional groups after "PT", read in order, in seconds. */
  function GroupsSeconds(t: string): (r: nat)
    ensures (t == [] || !IsDigit(t[0])) ==> r == 0
  {
    var (h, t1) := UnitGroup(t, 'H');
    var (m, t2) := UnitGroup(t1, 'M');
    var (s, _) := UnitGroup(t2, 'S');
    OrZero(h) * 3600 + OrZero(m) * 60 + OrZero(s)
  }

  /** Hours, minutes and seconds in seconds, an absent component counting as zero. */
  function TotalSeconds(h: Option<nat>, m: Option<nat>, s: Option<nat>): nat {
    OrZero(h) * 3600 + OrZero(m) * 60 + OrZero(s)
  }

  /** The text of one component, `<n>U`, or nothing when it is absent. */
  function Component(n: Option<nat>, unit: char): string {
    if n.Some? then Decimal(n.value) + [unit] else []
  }

  /** `PT#H#M#S` with any subset of the three components present. */
  function IsoText(h: Option<nat>, m: Option<nat>, s: Option<nat>): string {
    "PT" + Component(h, 'H') + Component(m, 'M') + Component(s, 'S')
  }

  /** A group over its own component reads the number back. */
  lemma ReadPresent(n: nat, unit: char, rest: string)
    requires !IsDigit(unit)
    ensures UnitGroup(Decimal(n) + [unit] + rest, unit) == (Some(n), rest)
  {
    var d := Decimal(n);
    var t := d + [unit] + rest;
    assert t == d + ([unit] + rest);
    DigitRunOver(d, [unit] + rest);
    assert t[..|d|] == d;
    assert t[|d| + 1..] == rest;
    DecimalRoundTrip(n);
  }

  /** A group whose unit letter does not follow the leading digit run leaves
      the text untouched. */
  lemma ReadAbsent(t: string, unit: char)
    requires !IsDigit(unit)
    requires DigitRun(t) == 0 || DigitRun(t) == |t| || t[DigitRun(t)] != unit
    ensures UnitGroup(t, unit) == (None, t)
  {
  }

  /** The digit run of a component ends at its own unit letter. */
  lemma RunOfComponents(n: Option<nat>, u: char, rest: string)
    requires !IsDigit(u) && n.Some?
    ensures DigitRun(Component(n, u) + rest) == |Decimal(n.value)|
    ensures (Component(n, u) + rest)[|Decimal(n.value)|] == u
  {
    var d := Decimal(n.value);
    assert Component(n, u) + rest == d + ([u] + rest);
    DigitRunOver(d, [u] + rest);
  }

  /** The groups read back the components they were written from. */
  lemma {:induction false} GroupsRoundTrip(h: Option<nat>, m: Option<nat>, s: Option<nat>)
    ensures GroupsSeconds(Component(h, 'H') + Component(m, 'M') + Component(s, 'S')) == TotalSeconds(h, m, s)
  {
    var cs := Component(s, 'S');
    var cm := Component(m, 'M') + cs;
    var ch := Component(h, 'H') + cm;
    assert Component(h, 'H') + Component(m, 'M') + Component(s, 'S') == ch;
    SecondsGroup(s);
    MinutesGroup(m, s);
    HoursGroup(h, m, s);
  }

  lemma SecondsGroup(s: Option<nat>)
    ensures UnitGroup(Component(s, 'S'), 'S') == (s, [])
  {
    if s.Some? {
      assert Component(s, 'S') == Decimal(s.value) + ['S'] + [];
      ReadPresent(s.value, 'S', []);
    } else {
      ReadAbsent([], 'S');
    }
  }

  lemma MinutesGroup(m: Option<nat>, s: Option<nat>)
    ensures UnitGroup(Component(m, 'M') + Component(s, 'S'), 'M') == (m, Component(s, 'S'))
  {
    var cs := Component(s, 'S');
    if m.Some? {
      ReadPresent(m.value, 'M', cs);
    } else {
      assert Component(m, 'M') + cs == cs;
      if s.Some? {
        assert cs == cs + [];
        RunOfComponents(s, 'S', []);
      }
      ReadAbsent(cs, 'M');
    }
  }

  lemma HoursGroup(h: Option<nat>, m: Option<nat>, s: Option<nat>)
    ensures UnitGroup(Component(h, 'H') + Component(m, 'M') + Component(s, 'S'), 'H')
         == (h, Component(m, 'M') + Component(s, 'S'))
  {
    var cs := Component(s, 'S');
    var cm := Component(m, 'M') + cs;
    assert Component(h, 'H') + Component(m, 'M') + Component(s, 'S') == Component(h, 'H') + cm;
    if h.Some? {
      ReadPresent(h.value, 'H', cm);
    } else {
      assert Component(h, 'H') + cm == cm;
      NoHoursGroup(m, s);
    }
  }

  /** Minutes and seconds alone hold no hours group. */
  lemma NoHoursGroup(m: Option<nat>, s: Option<nat>)
    ensures UnitGroup(Component(m, 'M') + Component(s, 'S'), 'H') == (None, Component(m, 'M') + Component(s, 'S'))
  {
    var cs := Component(s, 'S');
    var cm := Component(m, 'M') + cs;
    if m.Some? {
      RunOfComponents(m, 'M', cs);
    } else if s.Some? {
      assert cm == cs + [];
      RunOfComponents(s, 'S', []);
    }
    ReadAbsent(cm, 'H');
  }

  /** Decoding the text of a duration with any subset of its components gives
      their sum in seconds, an absent component counting as zero. */
  lemma {:induction false} IsoRoundTrip(h: Option<nat>, m: Option<nat>, s: Option<nat>)
    ensures ParseIsoDuration(IsoText(h, m, s)) == Some(TotalSeconds(h, m, s))
  {
    GroupsRoundTrip(h, m, s);
    ReadAfterPT(h, m, s);
  }

  /** The text of a duration is read from just after its "PT". */
  lemma ReadAfterPT(h: Option<nat>, m: Option<nat>, s: Option<nat>)
    ensures ParseIsoDuration(IsoText(h, m, s))
         == Some(GroupsSeconds(Component(h, 'H') + Component(m, 'M') + Component(s, 'S')))
  {
    var a, b, c := Component(h, 'H'), Component(m, 'M'), Component(s, 'S');
    assert "PT" + a + b + c == "PT" + (a + b + c);
    LeadingPT(a + b + c);
  }

  /** Text that starts with "PT" is read from just after it. */
  lemma LeadingPT(rest: string)
    ensures ParseIsoDuration("PT" + rest) == Some(GroupsSeconds(rest))
  {
    var dur := "PT" + rest;
    assert dur[0..2] == "PT";
    assert OccursAt(dur, "PT", 0);
    assert IndexOf(dur, "PT") == Some(0);
    assert dur[2..] == rest;
  }

  /** "PT0S" is zero seconds. */
  lemma ZeroDuration(dur: string)
    requires dur == "PT0S"
    ensures ParseIsoDuration(dur) == Some(0)
  {
    ZeroText(dur);
    IsoRoundTrip(None, None, Some(0));
  }

  lemma ZeroText(dur: string)
    requires dur == "PT0S"
    ensures IsoText(None, None, Some(0)) == dur
  {
    assert Decimal(0) == "0";
    assert Component(Some(0), 'S') == "0S";
  }

  /** A fifteen-minute video, as the Data API writes it. */
  lemma ExampleFifteenMinutes(dur: string)
    requires dur == "PT15M0S"
    ensures ParseIsoDuration(dur) == Some(900)
  {
    var t := IsoText(None, Some(15), Some(0));
    IsoRoundTrip(None, Some(15), Some(0));
    assert TotalSeconds(None, Some(15), Some(0)) == 900;
    ExampleFifteenText(dur);
  }

  lemma ExampleFifteenText(dur: string)
    requires dur == "PT15M0S"
    ensures IsoText(None, Some(15), Some(0)) == dur
  {
    assert Decimal(1) == "1" && Decimal(15) == Decimal(1) + [DigitChar(5)];
    assert Decimal(0) == "0";
    assert Component(Some(15), 'M') == "15M";
    assert Component(Some(0), 'S') == "0S";
  }

  /** A duration with a day component, as the Data API writes one for videos
      of a day or more, contains no "PT" and is not decoded. */
  lemma DayDurationRejected()
    ensures ParseIsoDuration("P1DT2H") == None
  {
    var d := "P1DT2H";
    assert forall j | 0 <= j < |d| - 1 :: !(d[j] == 'P' && d[j + 1] == 'T');
    NoPairOccurs(d, "PT");
  }

  /** A two-character pattern occurs nowhere when no adjacent pair matches it. */
  lemma NoPairOccurs(s: string, pat: string)
    requires |pat| == 2
    requires forall j | 0 <= j < |s| - 1 :: !(s[j] == pat[0] && s[j + 1] == pat[1])
    ensures forall j | 0 <= j <= |s| :: !OccursAt(s, pat, j)
  {
    forall j | 0 <= j <= |s| ensures !OccursAt(s, pat, j) {
      if j + 2 <= |s| {
        assert s[j..j + 2][0] == s[j] && s[j..j + 2][1] == s[j + 1];
      }
    }
  }
}
