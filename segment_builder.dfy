/**
 * The segment builder inside `POST` in app/api/youtube/route.js: the
 * indexed `map` that turns the scanned candidates and the video's total
 * duration into playable segments.
 */
module SegmentBuilder {
  import opened ChapterLine

  /** A segment of a course: its time span, title and the two fields the
      viewer edits, `completed` and `notes`. */
  datatype Segment = Segment(
    start_seconds: int,
    end_seconds: int,
    duration_seconds: int,
    title: string,
    completed: bool,
    notes: string)

  /** The end of candidate `i`: the next candidate's start, or the total
      duration for the last one. */
  function EndOf(cands: seq<Candidate>, i: nat, total: int): int
    requires i < |cands|
  {
    if i < |cands| - 1 then cands[i + 1].start_seconds else total
  }

  /** `segmentsRaw.map((seg, i) => ...)`: each candidate gets an end, a
      duration and the default `completed` and `notes`. */
  function BuildSegments(cands: seq<Candidate>, total: int): (r: seq<Segment>)
    ensures |r| == |cands|
    ensures forall i | 0 <= i < |r| ::
      r[i].start_seconds == cands[i].start_seconds && r[i].title == cands[i].title
    ensures forall i | 0 <= i < |r| :: !r[i].completed && r[i].notes == ""
    ensures Contiguous(r)
    ensures r != [] ==> r[|r| - 1].end_seconds == total
  {
    seq(|cands|, i requires 0 <= i < |cands| =>
      var end := EndOf(cands, i, total);
      Segment(cands[i].start_seconds, end, end - cands[i].start_seconds, cands[i].title, false, ""))
  }

  /** Each segment ends where the next one starts, and each duration is its
      end minus its start: the segments tile their span with no gap and no
      overlap. */
  predicate Contiguous(segs: seq<Segment>) {
    && (forall i | 0 <= i < |segs| - 1 :: segs[i].end_seconds == segs[i + 1].start_seconds)
    && (forall i | 0 <= i < |segs| :: segs[i].duration_seconds == segs[i].end_seconds - segs[i].start_seconds)
  }

  /** The sum of the durations. */
  function TotalDuration(segs: seq<Segment>): int {
    if segs == [] then 0 else segs[0].duration_seconds + TotalDuration(segs[1..])
  }

  /** Contiguous durations telescope: they add up to the last end minus the
      first start. */
  lemma {:induction false} Telescope(segs: seq<Segment>)
    requires segs != [] && Contiguous(segs)
    ensures TotalDuration(segs) == segs[|segs| - 1].end_seconds - segs[0].start_seconds
  {
    if |segs| > 1 {
      var tail := segs[1..];
      assert Contiguous(tail) by {
        forall i | 0 <= i < |tail| - 1 ensures tail[i].end_seconds == tail[i + 1].start_seconds {
          assert tail[i] == segs[i + 1] && tail[i + 1] == segs[i + 2];
        }
      }
      Telescope(tail);
    } else {
      assert segs[1..] == [];
    }
  }

  /** The built durations add up to the total duration minus the first start. */
  lemma DurationsSumToTotal(cands: seq<Candidate>, total: int)
    requires cands != []
    ensures TotalDuration(BuildSegments(cands, total)) == total - cands[0].start_seconds
  {
    Telescope(BuildSegments(cands, total));
  }

  /** Starts that never decrease, and no start past the total. */
  predicate Ordered(cands: seq<Candidate>, total: int) {
    && (forall i | 0 <= i < |cands| - 1 :: cands[i].start_seconds <= cands[i + 1].start_seconds)
    && (cands != [] ==> cands[|cands| - 1].start_seconds <= total)
  }

  /** Starts that strictly increase, and the last start before the total. */
  predicate StrictlyOrdered(cands: seq<Candidate>, total: int) {
    && (forall i | 0 <= i < |cands| - 1 :: cands[i].start_seconds < cands[i + 1].start_seconds)
    && (cands != [] ==> cands[|cands| - 1].start_seconds < total)
  }

  /** Nothing is clamped: every duration is non-negative exactly when the
      candidates are in order and none starts after the end of the video. */
  lemma NonNegativeIffOrdered(cands: seq<Candidate>, total: int)
    ensures (forall i | 0 <= i < |cands| :: BuildSegments(cands, total)[i].duration_seconds >= 0)
        <==> Ordered(cands, total)
  {
    var r := BuildSegments(cands, total);
    if forall i | 0 <= i < |cands| :: r[i].duration_seconds >= 0 {
      forall i | 0 <= i < |cands| - 1 ensures cands[i].start_seconds <= cands[i + 1].start_seconds {
        assert r[i].duration_seconds >= 0;
      }
      if cands != [] {
        assert r[|cands| - 1].duration_seconds >= 0;
      }
    }
  }

  /** Every duration is positive exactly when the starts strictly increase
      and the last one comes before the end of the video. */
  lemma PositiveIffStrictlyOrdered(cands: seq<Candidate>, total: int)
    ensures (forall i | 0 <= i < |cands| :: BuildSegments(cands, total)[i].duration_seconds > 0)
        <==> StrictlyOrdered(cands, total)
  {
    var r := BuildSegments(cands, total);
    if forall i | 0 <= i < |cands| :: r[i].duration_seconds > 0 {
      forall i | 0 <= i < |cands| - 1 ensures cands[i].start_seconds < cands[i + 1].start_seconds {
        assert r[i].duration_seconds > 0;
      }
      if cands != [] {
        assert r[|cands| - 1].duration_seconds > 0;
      }
    }
  }

  /** Chapters listed out of order give a negative duration, which is kept. */
  lemma OutOfOrderKept()
    ensures BuildSegments([Candidate(60, "B"), Candidate(30, "A")], 100)[0].duration_seconds == -30
  {
  }

  /** Three chapters of a ten-minute video. */
  lemma ExampleThreeChapters()
    ensures BuildSegments([Candidate(0, "Intro"), Candidate(83, "Setup"), Candidate(300, "Wrap")], 600)
         == [Segment(0, 83, 83, "Intro", false, ""),
             Segment(83, 300, 217, "Setup", false, ""),
             Segment(300, 600, 300, "Wrap", false, "")]
  {
  }
}
