/**
 * The caption scheduler: the `subtitles.map` in the render of
 * `CaptionedVideo` (src/CaptionedVideo/index.tsx), which turns the transcript
 * into one timed `Sequence` per caption, or `null` for a caption that would
 * be shown for no time at all. React renders nothing for `null`, so the
 * schedule is the list of non-null windows in transcript order.
 *
 * Frame numbers are exact reals. The source does not round a start frame to
 * a whole frame (`startInSeconds * fps` is used as it is), and the IEEE-754
 * rounding of that product is idealised away.
 */
module CaptionSchedule {
  import opened Wrappers

  /** One transcript entry (`SubtitleProp`). */
  datatype Entry = Entry(startInSeconds: real, text: string)

  /**
   * One emitted caption: the `Sequence` starting at frame `from` that lasts
   * `durationInFrames` frames and shows `text`. `index` is the position of its
   * entry in the transcript (used as the key of the inner `Subtitle`).
   */
  datatype Window = Window(index: nat, from: real, durationInFrames: real, text: string)
  {
    /** The first frame after the window: it covers `[from, End())`. */
    function End(): real { from + durationInFrames }
  }

  /** The frame at which an entry starts, at `fps` frames per second. */
  function StartFrame(e: Entry, fps: int): real
  {
    e.startInSeconds * fps as real
  }

  /** `subtitles[index + 1] ?? null`: the entry after position `i`, if there is one. */
  function Next(entries: seq<Entry>, i: nat): Option<Entry>
    requires i < |entries|
  {
    if i + 1 < |entries| then Some(entries[i + 1]) else None
  }

  function Min(a: real, b: real): real
  {
    if a <= b then a else b
  }

  /**
   * `Math.min(next ? next.startInSeconds * fps : Infinity, start + fps)`: the
   * next entry's start frame bounds the window, and a missing next entry
   * bounds nothing.
   */
  function EndFrame(next: Option<Entry>, start: real, fps: int): real
  {
    match next
    case None => start + fps as real
    case Some(n) => Min(StartFrame(n, fps), start + fps as real)
  }

  /** Multiplying by a positive frame rate keeps the strict order of two times. */
  lemma ScaleStrict(a: real, b: real, f: real)
    ensures f > 0.0 ==> (a * f < b * f <==> a < b)
  {
    assert b * f - a * f == (b - a) * f;
    if f <= 0.0 {
    } else if a < b {
      assert (b - a) * f > 0.0;
    } else {
      assert (a - b) * f >= 0.0;
    }
  }

  /**
   * A window is non-empty exactly when the frame rate is positive and the
   * next entry, if any, starts strictly later.
   */
  lemma DurationPositiveIff(e: Entry, next: Option<Entry>, fps: int)
    ensures var start := StartFrame(e, fps);
            EndFrame(next, start, fps) - start > 0.0 <==>
              fps > 0 && (next.Some? ==> e.startInSeconds < next.value.startInSeconds)
  {
    var start := StartFrame(e, fps);
    var f := fps as real;
    match next
    case None =>
      assert EndFrame(next, start, fps) - start == f;
    case Some(n) =>
      ScaleStrict(e.startInSeconds, n.startInSeconds, f);
      assert start == e.startInSeconds * f && StartFrame(n, fps) == n.startInSeconds * f;
      assert EndFrame(next, start, fps) - start == Min(StartFrame(n, fps) - start, f);
      if f > 0.0 {
        assert StartFrame(n, fps) - start > 0.0 <==> e.startInSeconds < n.startInSeconds;
      }
  }

  /**
   * The callback of `subtitles.map` for position `i`: `None` stands for its
   * `return null`. An entry is shown exactly when the frame rate is positive
   * and the next entry (if any) starts strictly later; a shown entry starts
   * at its own start frame, carries its own text, lasts more than zero and at
   * most `fps` frames, ends no later than the next entry starts, and lasts
   * exactly `fps` frames when it is the last entry. Its end is the earlier
   * of the two bounds: it lasts a full `fps` frames unless it ends exactly
   * where the next entry starts.
   */
  function Slot(entries: seq<Entry>, i: nat, fps: int): (r: Option<Window>)
    requires i < |entries|
    ensures r.Some? <==>
              fps > 0 && (i + 1 < |entries| ==> entries[i].startInSeconds < entries[i + 1].startInSeconds)
    ensures r.Some? ==> r.value.index == i && r.value.text == entries[i].text
                        && r.value.from == StartFrame(entries[i], fps)
    ensures r.Some? ==> 0.0 < r.value.durationInFrames <= fps as real
    ensures r.Some? && i + 1 < |entries| ==> r.value.End() <= StartFrame(entries[i + 1], fps)
    ensures r.Some? && i + 1 == |entries| ==> r.value.durationInFrames == fps as real
    ensures r.Some? ==> r.value.durationInFrames == fps as real
                        || (i + 1 < |entries| && r.value.End() == StartFrame(entries[i + 1], fps))
  {
    var start := StartFrame(entries[i], fps);
    var end := EndFrame(Next(entries, i), start, fps);
    var duration := end - start;
    DurationPositiveIff(entries[i], Next(entries, i), fps);
    if duration <= 0.0 then None else Some(Window(i, start, duration, entries[i].text))
  }

  /**
   * The windows emitted for the entries from position `i` on. Every window
   * comes from its own entry's slot, and windows appear in transcript order.
   */
  function ScheduleFrom(entries: seq<Entry>, fps: int, i: nat): (r: seq<Window>)
    requires i <= |entries|
    ensures |r| <= |entries| - i
    ensures forall k :: 0 <= k < |r| ==>
              i <= r[k].index < |entries| && Slot(entries, r[k].index, fps) == Some(r[k])
    ensures forall k, l :: 0 <= k < l < |r| ==> r[k].index < r[l].index
    decreases |entries| - i
  {
    if i == |entries| then []
    else
      match Slot(entries, i, fps)
      case None => ScheduleFrom(entries, fps, i + 1)
      case Some(w) => [w] + ScheduleFrom(entries, fps, i + 1)
  }

  /**
   * The captions rendered for a transcript at `fps` frames per second: at
   * most one per entry, each strictly positive and at most one second long,
   * each at its own entry's start frame with that entry's text, in
   * transcript order, and each exactly the window its entry's slot gives.
   */
  function Schedule(entries: seq<Entry>, fps: int): (r: seq<Window>)
    ensures |r| <= |entries|
    ensures forall w <- r :: 0.0 < w.durationInFrames <= fps as real
    ensures forall w <- r :: w.index < |entries| && w.text == entries[w.index].text
                             && w.from == StartFrame(entries[w.index], fps)
    ensures forall k, l :: 0 <= k < l < |r| ==> r[k].index < r[l].index
    ensures forall w <- r :: Slot(entries, w.index, fps) == Some(w)
  {
    ScheduleFrom(entries, fps, 0)
  }

  /** Every shown slot from position `i` on appears in the schedule from `i`. */
  lemma {:induction false} ScheduleFromComplete(entries: seq<Entry>, fps: int, i: nat, j: nat)
    requires i <= j < |entries| && Slot(entries, j, fps).Some?
    ensures Slot(entries, j, fps).value in ScheduleFrom(entries, fps, i)
    decreases j - i
  {
    if i < j {
      ScheduleFromComplete(entries, fps, i + 1, j);
    }
  }

  /**
   * An entry gets a caption exactly when the frame rate is positive and the
   * next entry, if any, starts strictly later; in particular an entry whose
   * successor starts at the same time or earlier is dropped.
   */
  lemma ShownIff(entries: seq<Entry>, fps: int, j: nat)
    requires j < |entries|
    ensures (exists w <- Schedule(entries, fps) :: w.index == j) <==>
              fps > 0 && (j + 1 < |entries| ==> entries[j].startInSeconds < entries[j + 1].startInSeconds)
  {
    if Slot(entries, j, fps).Some? {
      ScheduleFromComplete(entries, fps, 0, j);
    }
  }

  /** From any position up to the last, the schedule ends with the last entry's full-second window. */
  lemma {:induction false} LastFrom(entries: seq<Entry>, fps: int, i: nat)
    requires fps > 0 && i < |entries|
    ensures var r := ScheduleFrom(entries, fps, i);
            var e := entries[|entries| - 1];
            |r| > 0 && r[|r| - 1] == Window(|entries| - 1, StartFrame(e, fps), fps as real, e.text)
    decreases |entries| - i
  {
    if i + 1 < |entries| {
      LastFrom(entries, fps, i + 1);
    }
  }

  /**
   * With a positive frame rate the last entry is always shown, at its own
   * start frame, for exactly one second (`fps` frames), since no next entry
   * bounds it.
   */
  lemma LastEntryShown(entries: seq<Entry>, fps: int)
    requires fps > 0 && |entries| > 0
    ensures var r := Schedule(entries, fps);
            var e := entries[|entries| - 1];
            |r| > 0 && r[|r| - 1] == Window(|entries| - 1, StartFrame(e, fps), fps as real, e.text)
  {
    LastFrom(entries, fps, 0);
  }

  /** Start times never decrease along the transcript. */
  predicate NonDecreasing(entries: seq<Entry>)
  {
    forall a, b :: 0 <= a <= b < |entries| ==> entries[a].startInSeconds <= entries[b].startInSeconds
  }

  /** With a non-negative frame rate, a later entry never has an earlier start frame. */
  lemma StartFrameMonotone(a: Entry, b: Entry, fps: int)
    requires fps >= 0 && a.startInSeconds <= b.startInSeconds
    ensures StartFrame(a, fps) <= StartFrame(b, fps)
  {
    var f := fps as real;
    assert StartFrame(b, fps) - StartFrame(a, fps) == (b.startInSeconds - a.startInSeconds) * f;
  }

  /** Two shown slots of a non-decreasing transcript, the first before the second, do not overlap. */
  lemma SlotsOrdered(entries: seq<Entry>, fps: int, i: nat, j: nat)
    requires NonDecreasing(entries) && i < j < |entries|
    requires Slot(entries, i, fps).Some? && Slot(entries, j, fps).Some?
    ensures Slot(entries, i, fps).value.End() <= Slot(entries, j, fps).value.from
  {
    var wi, wj := Slot(entries, i, fps).value, Slot(entries, j, fps).value;
    assert fps > 0;
    assert wi.End() <= StartFrame(entries[i + 1], fps);
    assert wj.from == StartFrame(entries[j], fps);
    assert entries[i + 1].startInSeconds <= entries[j].startInSeconds;
    StartFrameMonotone(entries[i + 1], entries[j], fps);
  }

  /**
   * For a transcript whose start times never decrease, every caption ends no
   * later than any later caption starts, so captions never overlap and their
   * start frames strictly increase.
   */
  lemma ScheduleNonOverlapping(entries: seq<Entry>, fps: int)
    requires NonDecreasing(entries)
    ensures var r := Schedule(entries, fps);
            forall k, l :: 0 <= k < l < |r| ==> r[k].End() <= r[l].from && r[k].from < r[l].from
  {
    var r := Schedule(entries, fps);
    forall k, l | 0 <= k < l < |r|
      ensures r[k].End() <= r[l].from && r[k].from < r[l].from
    {
      SlotsOrdered(entries, fps, r[k].index, r[l].index);
    }
  }

  /**
   * Three spaced captions at 30 fps: [0,15) "a" (cut short by "b"), then
   * [15,45) "b" and [60,90) "c" (one full second each).
   */
  lemma SpacedExample()
    ensures Schedule([Entry(0.0, "a"), Entry(0.5, "b"), Entry(2.0, "c")], 30)
            == [Window(0, 0.0, 15.0, "a"), Window(1, 15.0, 30.0, "b"), Window(2, 60.0, 30.0, "c")]
  {
    var es := [Entry(0.0, "a"), Entry(0.5, "b"), Entry(2.0, "c")];
    assert Slot(es, 2, 30) == Some(Window(2, 60.0, 30.0, "c"));
    assert ScheduleFrom(es, 30, 2) == [Window(2, 60.0, 30.0, "c")];
    assert Slot(es, 1, 30) == Some(Window(1, 15.0, 30.0, "b"));
    assert Slot(es, 0, 30) == Some(Window(0, 0.0, 15.0, "a"));
  }

  /** Two captions at the same time: the earlier one collapses and only "y" is shown, at [30,60). */
  lemma SimultaneousExample()
    ensures Schedule([Entry(1.0, "x"), Entry(1.0, "y")], 30) == [Window(1, 30.0, 30.0, "y")]
  {
    var es := [Entry(1.0, "x"), Entry(1.0, "y")];
    assert Slot(es, 1, 30) == Some(Window(1, 30.0, 30.0, "y"));
    assert Slot(es, 0, 30) == None;
  }
}
