/**
 * The segment-list state machine of components/CourseViewer.js: the
 * viewer's copy of the course segments, the index of the segment on show,
 * and what it hands to the page that persists changes
 * (`onSegmentChange`) and to the player (`seekTo`). Rendering, timers and
 * the player's own state are not modelled.
 */
module CourseViewer {
  import opened Wrappers
  import opened JsStrings
  import opened TimeCode
  import opened SegmentBuilder

  /** `s.toString().padStart(2, "0")`. */
  function PadTwo(t: string): (r: string)
    ensures |r| == if |t| >= 2 then |t| else 2
    ensures |t| >= 2 ==> r == t
    ensures |t| < 2 ==> r[2 - |t|..] == t && forall k | 0 <= k < 2 - |t| :: r[k] == '0'
    decreases 2 - |t|
  {
    if |t| >= 2 then t else PadTwo(['0'] + t)
  }

  /** The decimal text of a number below 100 has at most two digits. */
  lemma DecimalBelowHundred(n: nat)
    requires n < 100
    ensures |Decimal(n)| <= 2
  {
    if n >= 10 {
      assert |Decimal(n / 10)| == 1;
    }
  }

  /** `formatDuration` on whole seconds: minutes, a colon, and the seconds
      padded to two digits; anything negative shows as "0:00". */
  function FormatDuration(seconds: int): (r: string)
    ensures seconds < 0 ==> r == "0:00"
    ensures |r| >= 4 && r[|r| - 3] == ':'
    ensures AllDigits(r[..|r| - 3]) && AllDigits(r[|r| - 2..])
    ensures IsClockText(r)
    ensures seconds >= 0 ==> r[..|r| - 3] == Decimal(seconds / 60)
  {
    if seconds < 0 then "0:00"
    else
      var minutes := Decimal(seconds / 60);
      DecimalBelowHundred(seconds % 60);
      var secs := PadTwo(Decimal(seconds % 60));
      PaddedDigits(Decimal(seconds % 60));
      ClockFields(minutes, secs);
      minutes + ":" + secs
  }

  /** Padding one or two digits gives two digits. */
  lemma PaddedDigits(t: string)
    requires 1 <= |t| <= 2 && AllDigits(t)
    ensures |PadTwo(t)| == 2 && AllDigits(PadTwo(t))
  {
    var r := PadTwo(t);
    forall k | 0 <= k < 2 ensures IsDigit(r[k]) {
      if k >= 2 - |t| {
        assert r[k] == r[2 - |t|..][k - (2 - |t|)];
      }
    }
  }

  /** Minutes, a colon and two seconds digits, and where each field sits. */
  lemma ClockFields(minutes: string, secs: string)
    requires |minutes| >= 1 && AllDigits(minutes) && |secs| == 2 && AllDigits(secs)
    ensures var r := minutes + ":" + secs;
      && |r| >= 4 && r[|r| - 3] == ':'
      && r[..|r| - 3] == minutes && r[|r| - 2..] == secs
      && IsClockText(r)
  {
    var r := minutes + ":" + secs;
    forall i | 0 <= i < |r| ensures IsDigit(r[i]) || r[i] == ':' {
      if i < |minutes| {
        assert r[i] == minutes[i];
      } else if i > |minutes| {
        assert r[i] == secs[i - |minutes| - 1];
      }
    }
  }

  /** A digit string read with a leading zero has the same value. */
  lemma LeadingZero(t: string)
    requires |t| == 1 && AllDigits(t)
    ensures AllDigits("0" + t) && DigitsValue("0" + t) == DigitsValue(t)
  {
    var z := "0" + t;
    assert z[..1] == "0";
    assert t[..0] == [];
  }

  /** The minutes field reads as the whole minutes and the two-digit
      seconds field as the seconds left over. */
  lemma FormatDurationFields(seconds: nat)
    ensures var r := FormatDuration(seconds);
      && DigitsValue(r[..|r| - 3]) == seconds / 60
      && DigitsValue(r[|r| - 2..]) == seconds % 60
      && r == r[..|r| - 3] + ":" + r[|r| - 2..]
  {
    var r := FormatDuration(seconds);
    var minutes := Decimal(seconds / 60);
    DecimalBelowHundred(seconds % 60);
    var d := Decimal(seconds % 60);
    var secs := PadTwo(d);
    assert r == minutes + ":" + secs;
    assert r[..|r| - 3] == minutes && r[|r| - 2..] == secs;
    DecimalRoundTrip(seconds / 60);
    DecimalRoundTrip(seconds % 60);
    if |d| == 1 {
      assert secs == "0" + d;
      LeadingZero(d);
    }
  }

  /** Read back as a time code, the text shows the same number of seconds. */
  lemma FormatDurationRoundTrip(seconds: nat)
    ensures ConvertTimestampToSeconds(FormatDuration(seconds)) == seconds
  {
    var r := FormatDuration(seconds);
    FormatDurationFields(seconds);
    MinutesSecondsValue(r, seconds);
  }

  /** A clock text whose fields hold the whole minutes and the seconds left
      over reads back as the seconds. */
  lemma MinutesSecondsValue(r: string, seconds: nat)
    requires |r| >= 4 && IsClockText(r) && r == r[..|r| - 3] + ":" + r[|r| - 2..]
    requires AllDigits(r[..|r| - 3]) && AllDigits(r[|r| - 2..])
    requires DigitsValue(r[..|r| - 3]) == seconds / 60 && DigitsValue(r[|r| - 2..]) == seconds % 60
    ensures ConvertTimestampToSeconds(r) == seconds
  {
    MinSecValue(r, r[..|r| - 3], r[|r| - 2..], seconds);
  }

  /** "1:23" for 83 seconds. */
  lemma ExampleFormat()
    ensures FormatDuration(83) == "1:23"
    ensures FormatDuration(5) == "0:05"
  {
    assert Decimal(23) == "23";
    assert Decimal(5) == "5";
    assert PadTwo("5") == "05";
  }

  /** `segments.filter((s) => s.completed).length`. */
  function CompletedCount(segs: seq<Segment>): (n: nat)
    ensures n <= |segs|
  {
    if segs == [] then 0
    else CompletedCount(segs[..|segs| - 1]) + (if segs[|segs| - 1].completed then 1 else 0)
  }

  /** The indices of the completed segments. */
  function CompletedIndices(segs: seq<Segment>): set<nat> {
    set i: nat | i < |segs| && segs[i].completed
  }

  /** The count is the number of completed segments. */
  lemma {:induction false} CompletedCountIsSize(segs: seq<Segment>)
    ensures CompletedCount(segs) == |CompletedIndices(segs)|
  {
    if segs != [] {
      var n := |segs| - 1;
      var init := segs[..n];
      CompletedCountIsSize(init);
      if segs[n].completed {
        assert CompletedIndices(segs) == CompletedIndices(init) + {n};
      } else {
        assert CompletedIndices(segs) == CompletedIndices(init);
      }
    }
  }

  /** The percentage shown beside the count: `Math.round(count / n * 100)`,
      and 0 for a course without segments. */
  function CompletionPercent(count: nat, n: nat): (p: nat)
    requires count <= n
    ensures p <= 100
    ensures n == 0 ==> p == 0
    ensures n > 0 ==> 2 * n * p <= 200 * count + n < 2 * n * (p + 1)
    ensures count == 0 ==> p == 0
    ensures 0 < n && count == n ==> p == 100
  {
    if n == 0 then 0
    else
      RoundedPercent(count, n);
      (200 * count + n) / (2 * n)
  }

  /** The bounds of the rounded ratio, with its two end points. */
  lemma RoundedPercent(count: nat, n: nat)
    requires 0 < n && count <= n
    ensures var p := (200 * count + n) / (2 * n);
      && p <= 100
      && 2 * n * p <= 200 * count + n < 2 * n * (p + 1)
      && (count == 0 ==> p == 0)
      && (count == n ==> p == 100)
  {
    var p := (200 * count + n) / (2 * n);
    DivBounds(200 * count + n, 2 * n);
    if p > 100 {
      MulMonotone(2 * n, 101, p);
    }
    if count == 0 {
      DivUnique(n, 2 * n, 0);
    }
    if count == n {
      DivUnique(201 * n, 2 * n, 100);
    }
  }

  lemma DivBounds(a: nat, b: nat)
    requires b > 0
    ensures b * (a / b) <= a < b * (a / b + 1)
  {
  }

  lemma DivUnique(a: nat, b: nat, q: nat)
    requires b > 0 && b * q <= a < b * (q + 1)
    ensures a / b == q
  {
    DivBounds(a, b);
    if a / b < q {
      MulMonotone(b, a / b + 1, q);
    } else if a / b > q {
      MulMonotone(b, q + 1, a / b);
    }
  }

  lemma MulMonotone(b: nat, x: nat, y: nat)
    requires x <= y
    ensures b * x <= b * y
  {
  }

  /** The segment list with the completion of segment `i` flipped. */
  function ToggledAt(segs: seq<Segment>, i: nat): (r: seq<Segment>)
    requires i < |segs|
    ensures |r| == |segs|
    ensures r[i].completed == !segs[i].completed
  {
    segs[i := segs[i].(completed := !segs[i].completed)]
  }

  /** Toggling flips `completed` on segment `i` and changes nothing else. */
  lemma ToggleOnlyFlips(segs: seq<Segment>, i: nat)
    requires i < |segs|
    ensures forall j | 0 <= j < |segs| && j != i :: ToggledAt(segs, i)[j] == segs[j]
    ensures ToggledAt(segs, i)[i].completed == !segs[i].completed
    ensures ToggledAt(segs, i)[i].(completed := segs[i].completed) == segs[i]
  {
  }

  /** Toggling the same segment twice restores the list. */
  lemma ToggleTwice(segs: seq<Segment>, i: nat)
    requires i < |segs|
    ensures ToggledAt(ToggledAt(segs, i), i) == segs
  {
  }

  /** Toggling moves the completed count by one, up or down. */
  lemma ToggleCount(segs: seq<Segment>, i: nat)
    requires i < |segs|
    ensures CompletedCount(ToggledAt(segs, i)) == CompletedCount(segs) + (if segs[i].completed then -1 else 1)
  {
    var t := ToggledAt(segs, i);
    CompletedCountIsSize(segs);
    CompletedCountIsSize(t);
    var before, after := CompletedIndices(segs), CompletedIndices(t);
    assert before - {i} == after - {i} by {
      forall j: nat | j != i ensures j in before <==> j in after {
        assert j < |segs| ==> t[j] == segs[j];
      }
    }
    if segs[i].completed {
      assert before == (after - {i}) + {i} && i !in after;
    } else {
      assert after == (before - {i}) + {i} && i !in before;
    }
  }

  /** What the viewer hands to `onSegmentChange`: an index and the whole
      segment to store there. */
  datatype SegmentUpdate = SegmentUpdate(index: int, segment: Segment)

  /** `handleSegmentUpdate` in the course page
      (app/dashboard/(main)/course/[courseId]/page.js): the segment replaces
      the stored one at its index, whole. */
  function ApplyUpdate(store: seq<Segment>, u: SegmentUpdate): (r: seq<Segment>)
    ensures |r| == |store|
    ensures 0 <= u.index < |store| ==> r[u.index] == u.segment
    ensures forall j | 0 <= j < |store| && j != u.index :: r[j] == store[j]
  {
    if 0 <= u.index < |store| then store[u.index := u.segment] else store
  }

  /** The stored segments after a run of updates, in order. */
  function ApplyUpdates(store: seq<Segment>, us: seq<SegmentUpdate>): (r: seq<Segment>)
    ensures |r| == |store|
    ensures forall j | 0 <= j < |store| && Untouched(us, j) :: r[j] == store[j]
    decreases |us|
  {
    if us == [] then store
    else
      assert forall j | Untouched(us, j) :: Untouched(us[1..], j) by {
        forall j | Untouched(us, j) ensures Untouched(us[1..], j) {
          forall k | 0 <= k < |us[1..]| ensures us[1..][k].index != j {
            assert us[1..][k] == us[k + 1];
          }
        }
      }
      ApplyUpdates(ApplyUpdate(store, us[0]), us[1..])
  }

  /** No update in `us` names index `j`. */
  predicate Untouched(us: seq<SegmentUpdate>, j: int) {
    forall k | 0 <= k < |us| :: us[k].index != j
  }

  class Viewer {
    /** `courseData.segments`, the viewer's own copy. */
    var segments: seq<Segment>
    /** `currentSegmentIndex`. */
    var currentIndex: int
    /** Whether `playerRef.current` is set (the player's `onReady` fired). */
    var playerReady: bool
    /** `isGuestMode`. */
    const guestMode: bool
    /** Whether an `onSegmentChange` callback was passed. */
    const hasCallback: bool
    /** The calls made to `onSegmentChange`, in order. */
    var sent: seq<SegmentUpdate>
    /** The positions handed to `seekTo`, in order. */
    var seeks: seq<int>

    /** The index is 0 or names a segment. */
    predicate Valid()
      reads this
    {
      0 <= currentIndex && (currentIndex == 0 || currentIndex < |segments|)
    }

    /** Changes are handed on only outside guest mode and with a callback. */
    predicate Persists()
      reads this
    {
      !guestMode && hasCallback
    }

    constructor (initial: seq<Segment>, guest: bool, callback: bool)
      ensures Valid()
      ensures segments == initial && currentIndex == 0 && !playerReady
      ensures guestMode == guest && hasCallback == callback
      ensures sent == [] && seeks == []
    {
      segments := initial;
      currentIndex := 0;
      playerReady := false;
      guestMode := guest;
      hasCallback := callback;
      sent := [];
      seeks := [];
    }

    /** The player's `onReady`. */
    method PlayerReady()
      modifies this
      ensures playerReady
      ensures segments == old(segments) && currentIndex == old(currentIndex)
      ensures sent == old(sent) && seeks == old(seeks)
    {
      playerReady := true;
    }

    /** `handleToggleCompletion(i)`: flips segment `i` in the viewer's copy
        and hands the new segment on. An index with no segment makes the
        handler throw before any state changes; `ok` is false then. */
    method ToggleCompletion(i: int) returns (ok: bool)
      requires Valid()
      modifies this
      ensures Valid()
      ensures ok <==> 0 <= i < |old(segments)|
      ensures segments == if ok then ToggledAt(old(segments), i) else old(segments)
      ensures sent == if ok && Persists() then old(sent) + [SegmentUpdate(i, segments[i])] else old(sent)
      ensures currentIndex == old(currentIndex) && playerReady == old(playerReady) && seeks == old(seeks)
      ensures Persists() ==> ApplyUpdates(old(segments), sent[|old(sent)|..]) == segments
    {
      ok := 0 <= i < |segments|;
      if ok {
        var updated := segments[i].(completed := !segments[i].completed);
        segments := segments[i := updated];
        if !guestMode && hasCallback {
          sent := sent + [SegmentUpdate(i, updated)];
          assert sent[|old(sent)|..] == [SegmentUpdate(i, updated)];
          assert [SegmentUpdate(i, updated)][1..] == [];
        }
      }
      if !ok || !Persists() {
        assert sent[|old(sent)|..] == [];
      }
    }

    /** `displaySegment(index)`: shows segment `index` and seeks the player
        to its start, only when the index names a segment and the player is
        ready; otherwise nothing happens. */
    method DisplaySegment(index: int)
      requires Valid()
      modifies this
      ensures Valid()
      ensures segments == old(segments) && sent == old(sent) && playerReady == old(playerReady)
      ensures var moves := 0 <= index < |segments| && playerReady;
        && currentIndex == (if moves then index else old(currentIndex))
        && seeks == (if moves then old(seeks) + [segments[index].start_seconds] else old(seeks))
    {
      if 0 <= index < |segments| && playerReady {
        currentIndex := index;
        seeks := seeks + [segments[index].start_seconds];
      }
    }

    /** The "previous" button: `displaySegment(currentSegmentIndex - 1)`. */
    method ShowPrevious()
      requires Valid()
      modifies this
      ensures Valid()
      ensures segments == old(segments) && sent == old(sent) && playerReady == old(playerReady)
      ensures var moves := old(currentIndex) > 0 && playerReady;
        && currentIndex == (if moves then old(currentIndex) - 1 else old(currentIndex))
        && seeks == (if moves then old(seeks) + [segments[old(currentIndex) - 1].start_seconds] else old(seeks))
    {
      DisplaySegment(currentIndex - 1);
    }

    /** `playNextAndComplete`: marks the current segment completed if it is
        not already, then moves to the next segment if there is one. */
    method PlayNextAndComplete()
      requires Valid()
      modifies this
      ensures Valid()
      ensures var c := old(currentIndex);
        segments == if c < |old(segments)| then old(segments)[c := old(segments)[c].(completed := true)] else old(segments)
      ensures old(currentIndex) < |segments| ==> segments[old(currentIndex)].completed
      ensures forall j | 0 <= j < |segments| :: old(segments)[j].completed ==> segments[j].completed
      ensures currentIndex == if old(currentIndex) < |segments| - 1 && playerReady then old(currentIndex) + 1 else old(currentIndex)
      ensures playerReady == old(playerReady)
      ensures var c := old(currentIndex);
        var toggles := c < |old(segments)| && !old(segments)[c].completed;
        sent == if toggles && Persists() then old(sent) + [SegmentUpdate(c, segments[c])] else old(sent)
      ensures var c := old(currentIndex);
        seeks == if c < |segments| - 1 && playerReady then old(seeks) + [segments[c + 1].start_seconds] else old(seeks)
      ensures Persists() ==> ApplyUpdates(old(segments), sent[|old(sent)|..]) == segments
    {
      if currentIndex < |segments| && !segments[currentIndex].completed {
        var _ := ToggleCompletion(currentIndex);
      }
      if currentIndex < |segments| - 1 {
        DisplaySegment(currentIndex + 1);
      }
    }

    /** The debounced note save as written: when the note box differs from
        the current segment's stored notes, a copy of the segment with the
        new notes is handed on, but the viewer's own segments are left as
        they were. */
    method FlushNote(activeNote: string)
      requires Valid()
      modifies this
      ensures Valid()
      ensures segments == old(segments) && currentIndex == old(currentIndex)
      ensures playerReady == old(playerReady) && seeks == old(seeks)
      ensures var c := currentIndex;
        sent == if c < |segments| && activeNote != segments[c].notes && Persists()
                then old(sent) + [SegmentUpdate(c, segments[c].(notes := activeNote))]
                else old(sent)
    {
      if currentIndex < |segments| && activeNote != segments[currentIndex].notes {
        var updated := segments[currentIndex].(notes := activeNote);
        if !guestMode && hasCallback {
          sent := sent + [SegmentUpdate(currentIndex, updated)];
        }
      }
    }

    /** The note save with the viewer's copy kept in step: the same guards,
        and the new notes are written into the viewer's segments as well as
        handed on, so the store and the viewer agree afterwards. */
    method FlushNoteSynced(activeNote: string)
      requires Valid()
      modifies this
      ensures Valid()
      ensures currentIndex == old(currentIndex) && playerReady == old(playerReady) && seeks == old(seeks)
      ensures var c := currentIndex;
        var changes := c < |old(segments)| && activeNote != old(segments)[c].notes;
        && segments == (if changes then old(segments)[c := old(segments)[c].(notes := activeNote)] else old(segments))
        && sent == (if changes && Persists() then old(sent) + [SegmentUpdate(c, segments[c])] else old(sent))
      ensures currentIndex < |segments| ==> segments[currentIndex].notes == activeNote
      ensures Persists() ==> ApplyUpdates(old(segments), sent[|old(sent)|..]) == segments
    {
      if currentIndex < |segments| && activeNote != segments[currentIndex].notes {
        var updated := segments[currentIndex].(notes := activeNote);
        segments := segments[currentIndex := updated];
        if !guestMode && hasCallback {
          sent := sent + [SegmentUpdate(currentIndex, updated)];
          assert sent[|old(sent)|..] == [SegmentUpdate(currentIndex, updated)];
          assert [SegmentUpdate(currentIndex, updated)][1..] == [];
        }
      }
      if sent == old(sent) {
        assert sent[|old(sent)|..] == [];
      }
    }
  }

  /** As written: a note saved for the first segment and then a completion
      toggle on it leave the store with the old notes, because the toggle
      hands on the viewer's stale copy of the segment. */
  method NoteThenToggleAsWritten(initial: seq<Segment>, note: string) returns (store: seq<Segment>)
    requires initial != [] && note != initial[0].notes
    ensures |store| == |initial|
    ensures store[0].notes == initial[0].notes != note
    ensures store[0].completed == !initial[0].completed
  {
    var v := new Viewer(initial, false, true);
    v.FlushNote(note);
    var _ := v.ToggleCompletion(0);
    var saved := [SegmentUpdate(0, initial[0].(notes := note))];
    assert v.sent == saved + v.sent[1..];
    ApplyUpdatesConcat(initial, saved, v.sent[1..]);
    store := ApplyUpdates(initial, v.sent);
  }

  /** With the synced save the same steps keep the note, and the store ends
      up equal to the viewer's own segments. */
  method NoteThenToggleSynced(initial: seq<Segment>, note: string) returns (store: seq<Segment>, shown: seq<Segment>)
    requires initial != []
    ensures store == shown
    ensures |store| == |initial|
    ensures store[0].notes == note
    ensures store[0].completed == !initial[0].completed
  {
    var v := new Viewer(initial, false, true);
    v.FlushNoteSynced(note);
    var mid, sentMid := v.segments, v.sent;
    var _ := v.ToggleCompletion(0);
    ApplyUpdatesConcat(initial, sentMid, v.sent[|sentMid|..]);
    assert v.sent == sentMid + v.sent[|sentMid|..];
    store := ApplyUpdates(initial, v.sent);
    shown := v.segments;
  }

  /** Applying two runs of updates one after the other. */
  lemma {:induction false} ApplyUpdatesConcat(store: seq<Segment>, us: seq<SegmentUpdate>, vs: seq<SegmentUpdate>)
    ensures ApplyUpdates(store, us + vs) == ApplyUpdates(ApplyUpdates(store, us), vs)
    decreases |us|
  {
    if us == [] {
      assert us + vs == vs;
    } else {
      assert (us + vs)[1..] == us[1..] + vs;
      ApplyUpdatesConcat(ApplyUpdate(store, us[0]), us[1..], vs);
    }
  }
}
