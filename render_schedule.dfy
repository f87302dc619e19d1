/** CreateSchedule and its phases: the rotation cursor, the merge with the
    overrides, the pure-rotation fill and the truncation to the window's end,
    written as the loops of `create_schedule` in render-schedule.py and proved
    to compute the effective schedule. */
module RenderSchedule {
  import opened RotationCursor
  import opened EffectiveSchedule

  /** The last entry's end clamped to until, and the entry dropped when that
      leaves it empty. */
  function Truncate(res: seq<Entry>, until: int): seq<Entry> {
    if res == [] then res
    else
      var last := res[|res| - 1];
      var clamped := Entry(last.user, last.start, Min(last.end, until));
      if clamped.start >= clamped.end then res[..|res| - 1] else res[..|res| - 1] + [clamped]
  }

  /** One emission: appending x, which begins where the schedule built so far
      ends, keeps that schedule on track, whether x ends inside the window or
      runs past until and awaits truncation. */
  lemma Append(res: seq<Entry>, x: Entry, until: int, cur: seq<Entry>, next: seq<Entry>, goal: seq<Entry>)
    requires x.start <= until && x.start < x.end
    requires res + cur == goal && Tiles(cur, x.start, until)
    requires x.start < until ==> cur == [Entry(x.user, x.start, Min(x.end, until))] + next
    requires Tiles(next, x.end, until)
    ensures x.end <= until ==> (res + [x]) + next == goal
    ensures until < x.end ==> Truncate(res + [x], until) == goal
  {
    var res' := res + [x];
    assert res'[..|res'| - 1] == res;
  }

  /** The entries res built so far, followed by the effective schedule from
      the cursor's instant start with the overrides from k still to place, make
      up goal; once start has passed until, truncating res gives goal. */
  ghost predicate OnTrack(r: Rotation, ov: seq<Override>, fromTime: int, until: int,
                          res: seq<Entry>, k: nat, start: int, goal: seq<Entry>)
    requires r.Valid() && Pending(ov, k, fromTime)
  {
    && (start <= until ==> res + ScheduleFrom(r, ov, k, fromTime, until, start) == goal)
    && (until < start ==> Truncate(res, until) == goal)
  }

  /** Case A: an override takes effect strictly inside the cursor's interval;
      the rotation runs up to it. */
  lemma SplitStep(r: Rotation, ov: seq<Override>, fromTime: int, until: int,
                  res: seq<Entry>, k: nat, start: int, goal: seq<Entry>)
    requires r.Valid() && Pending(ov, k, fromTime) && k < |ov| && start <= until
    requires OnTrack(r, ov, fromTime, until, res, k, start, goal)
    requires start < EffectiveStart(ov[k], fromTime) < Boundary(r, start)
    ensures OnTrack(r, ov, fromTime, until, res + [Entry(RotationUser(r, start), start, EffectiveStart(ov[k], fromTime))],
                    k, EffectiveStart(ov[k], fromTime), goal)
  {
    var os := EffectiveStart(ov[k], fromTime);
    Append(res, Entry(RotationUser(r, start), start, os), until,
           ScheduleFrom(r, ov, k, fromTime, until, start), ScheduleFrom(r, ov, k, fromTime, until, os), goal);
  }

  /** Case B: an override takes effect at the cursor's instant; it is placed
      whole and consumed. */
  lemma OverrideStep(r: Rotation, ov: seq<Override>, fromTime: int, until: int,
                     res: seq<Entry>, k: nat, start: int, goal: seq<Entry>)
    requires r.Valid() && Pending(ov, k, fromTime) && k < |ov| && start <= until
    requires OnTrack(r, ov, fromTime, until, res, k, start, goal)
    requires start == EffectiveStart(ov[k], fromTime)
    ensures Pending(ov, k + 1, fromTime)
    ensures OnTrack(r, ov, fromTime, until, res + [Entry(ov[k].user, start, ov[k].endAt)], k + 1, ov[k].endAt, goal)
  {
    if k + 1 < |ov| {
      assert ov[k].endAt <= ov[k + 1].startAt;
    }
    Append(res, Entry(ov[k].user, start, ov[k].endAt), until,
           ScheduleFrom(r, ov, k, fromTime, until, start), ScheduleFrom(r, ov, k + 1, fromTime, until, ov[k].endAt), goal);
  }

  /** Case C, and the fill: no override takes effect inside the cursor's
      interval; the whole interval goes to its participant. */
  lemma RotationStep(r: Rotation, ov: seq<Override>, fromTime: int, until: int,
                     res: seq<Entry>, k: nat, start: int, goal: seq<Entry>)
    requires r.Valid() && Pending(ov, k, fromTime) && start <= until
    requires OnTrack(r, ov, fromTime, until, res, k, start, goal)
    requires k < |ov| ==> !(start < EffectiveStart(ov[k], fromTime) < Boundary(r, start))
                          && start != EffectiveStart(ov[k], fromTime)
    ensures OnTrack(r, ov, fromTime, until, res + [Entry(RotationUser(r, start), start, Boundary(r, start))],
                    k, Boundary(r, start), goal)
  {
    var b := Boundary(r, start);
    Append(res, Entry(RotationUser(r, start), start, b), until,
           ScheduleFrom(r, ov, k, fromTime, until, start), ScheduleFrom(r, ov, k, fromTime, until, b), goal);
  }

  /** Locating the rotation cursor: the schedule starts at the later of
      fromTime and the first handover, in the interval [.., end) that contains
      that instant, with that interval's participant. */
  method Locate(r: Rotation, fromTime: int) returns (start: int, end: int, user: int)
    requires r.Valid()
    ensures start == Max(fromTime, r.handoverStartAt)
    ensures end == Boundary(r, start) && user == RotationIndex(r, start)
  {
    var handoverStart := r.handoverStartAt;
    var interval := r.Interval();
    if handoverStart < fromTime {
      start := fromTime;
      end := ((fromTime - handoverStart) / interval + 1) * interval + handoverStart;
      user := ((fromTime - handoverStart) / interval) % |r.users|;
    } else {
      start := handoverStart;
      end := start + interval;
      user := 0;
      FirstInterval(r);
    }
  }

  /** Skipping the overrides that are over by fromTime: the index of the first
      override still live at fromTime. */
  method SkipEnded(overrides: seq<Override>, fromTime: int) returns (k: nat)
    ensures k == FirstLive(overrides, fromTime, 0)
  {
    k := 0;
    while k < |overrides| && overrides[k].endAt <= fromTime
      invariant k <= |overrides|
      invariant FirstLive(overrides, fromTime, k) == FirstLive(overrides, fromTime, 0)
    {
      k := k + 1;
    }
  }

  /** One pass of the merge loop's case analysis on the next override: split
      the interval before it, place it, or place the whole interval.  The
      cursor's instant strictly moves forward and the schedule stays on track. */
  method MergeStep(r: Rotation, overrides: seq<Override>, fromTime: int, until: int,
                   res: seq<Entry>, k: nat, start: int, end: int, user: int, ghost goal: seq<Entry>)
    returns (res': seq<Entry>, k': nat, start': int)
    requires r.Valid() && Pending(overrides, k, fromTime) && k < |overrides| && start <= until
    requires end == Boundary(r, start) && user == RotationIndex(r, start)
    requires OnTrack(r, overrides, fromTime, until, res, k, start, goal)
    ensures Pending(overrides, k', fromTime) && start < start'
    ensures OnTrack(r, overrides, fromTime, until, res', k', start', goal)
  {
    var overrideStart := Max(overrides[k].startAt, fromTime);
    var overrideEnd := overrides[k].endAt;
    if start < overrideStart < end {
      // Split the rotation interval before the override.
      SplitStep(r, overrides, fromTime, until, res, k, start, goal);
      res', k', start' := res + [Entry(r.users[user], start, overrideStart)], k, overrideStart;
    } else if start == overrideStart {
      // Place the override.
      OverrideStep(r, overrides, fromTime, until, res, k, start, goal);
      res', k', start' := res + [Entry(overrides[k].user, overrideStart, overrideEnd)], k + 1, overrideEnd;
    } else {
      // No override in this interval: place the whole of it.
      RotationStep(r, overrides, fromTime, until, res, k, start, goal);
      res', k', start' := res + [Entry(r.users[user], start, end)], k, end;
    }
  }

  /** Advancing the cursor past the intervals an emission has used up: from
      the interval located at an earlier instant to the one containing start. */
  method Advance(r: Rotation, ghost located: int, start: int, end: int, user: int)
    returns (end': int, user': int)
    requires r.Valid() && located <= start
    requires end == Boundary(r, located) && user == RotationIndex(r, located)
    ensures end' == Boundary(r, start) && user' == RotationIndex(r, start)
  {
    var interval := r.Interval();
    ghost var at := located;
    end', user' := end, user;
    while end' <= start
      invariant at <= start && end' == Boundary(r, at) && user' == RotationIndex(r, at)
      decreases start - end'
    {
      NextInterval(r, at);
      at := end';
      end' := end' + interval;
      user' := (user' + 1) % |r.users|;
    }
    SameInterval(r, at, start);
  }

  /** Entry e runs from its start to the next handover, with the participant
      of that interval. */
  predicate WholeInterval(r: Rotation, e: Entry)
    requires r.Valid()
  {
    e.user == RotationUser(r, e.start) && e.end == Boundary(r, e.start)
  }

  /** The entries of run are whole rotation intervals placed back to back
      from start: the first ends at the handover after start, each later one
      is a full interval with the next participant in cyclic order. */
  predicate RotationRun(r: Rotation, run: seq<Entry>, start: int)
    requires r.Valid()
  {
    && (forall i :: 0 <= i < |run| ==> WholeInterval(r, run[i]))
    && (run != [] ==> run[0].start == start)
    && (forall i :: 0 < i < |run| ==>
          && run[i].start == run[i - 1].end
          && run[i].end == run[i].start + r.Interval()
          && RotationIndex(r, run[i].start) == (RotationIndex(r, run[i - 1].start) + 1) % |r.users|)
  }

  /** Where a run placed from start leaves the cursor. */
  function RunEnd(run: seq<Entry>, start: int): int {
    if run == [] then start else run[|run| - 1].end
  }

  /** One fill step: the interval holding the cursor, placed whole, extends
      the run. */
  lemma ExtendRun(r: Rotation, run: seq<Entry>, start: int)
    requires r.Valid() && RotationRun(r, run, start)
    ensures var t := RunEnd(run, start);
            var run' := run + [Entry(RotationUser(r, t), t, Boundary(r, t))];
            RotationRun(r, run', start) && RunEnd(run', start) == Boundary(r, t)
  {
    var t := RunEnd(run, start);
    var run' := run + [Entry(RotationUser(r, t), t, Boundary(r, t))];
    if run != [] {
      NextInterval(r, run[|run| - 1].start);
      assert run'[|run|] == Entry(RotationUser(r, t), t, Boundary(r, t));
      assert run'[|run| - 1] == run[|run| - 1];
    }
    assert forall i :: 0 <= i < |run| ==> run'[i] == run[i];
  }

  /** Once the overrides are exhausted, whole rotation intervals are placed
      until the cursor has passed until: the entries appended to res form a
      rotation run from start, and the cursor ends where the run ends. */
  method Fill(r: Rotation, overrides: seq<Override>, fromTime: int, until: int,
              res: seq<Entry>, k: nat, start: int, end: int, user: int, ghost goal: seq<Entry>)
    returns (res': seq<Entry>, start': int)
    requires r.Valid() && Pending(overrides, k, fromTime)
    requires start <= until ==> k == |overrides|
    requires end == Boundary(r, start) && user == RotationIndex(r, start)
    requires OnTrack(r, overrides, fromTime, until, res, k, start, goal)
    ensures until < start' && OnTrack(r, overrides, fromTime, until, res', k, start', goal)
    ensures |res| <= |res'| && res'[..|res|] == res
    ensures RotationRun(r, res'[|res|..], start) && start' == RunEnd(res'[|res|..], start)
  {
    var interval := r.Interval();
    var e, u := end, user;
    res', start' := res, start;
    ghost var run: seq<Entry> := [];
    while start' <= until
      invariant e == Boundary(r, start') && u == RotationIndex(r, start')
      invariant start' <= until ==> k == |overrides|
      invariant OnTrack(r, overrides, fromTime, until, res', k, start', goal)
      invariant res' == res + run
      invariant RotationRun(r, run, start) && start' == RunEnd(run, start)
      decreases until - start'
    {
      RotationStep(r, overrides, fromTime, until, res', k, start', goal);
      ExtendRun(r, run, start);
      NextInterval(r, start');
      run := run + [Entry(r.users[u], start', e)];
      res', start' := res' + [Entry(r.users[u], start', e)], e;
      e, u := e + interval, (u + 1) % |r.users|;
    }
    assert res'[|res|..] == run;
  }

  /** Truncation to until: the last entry's end is clamped, and the entry is
      dropped when it starts at or after until. */
  method TruncateLast(res: seq<Entry>, until: int) returns (out: seq<Entry>)
    ensures out == Truncate(res, until)
  {
    out := res;
    if out != [] {
      var last := out[|out| - 1];
      out := out[..|out| - 1] + [Entry(last.user, last.start, Min(last.end, until))];
      assert out[..|out| - 1] == res[..|res| - 1];
      if out[|out| - 1].start >= out[|out| - 1].end {
        out := out[..|out| - 1];
      }
    }
  }

  /** The schedule for the window [fromTime, until), merging the rotation r with
      the overrides (sorted, disjoint, each non-empty). */
  method CreateSchedule(r: Rotation, overrides: seq<Override>, fromTime: int, until: int) returns (res: seq<Entry>)
    requires r.Valid() && WellFormed(overrides)
    ensures res == Schedule(r, overrides, fromTime, until)
    ensures Tiles(res, Max(fromTime, r.handoverStartAt), until)
    ensures res == [] <==> until <= Max(fromTime, r.handoverStartAt)
    ensures forall i :: 0 <= i < |res| ==>
              Max(fromTime, r.handoverStartAt) <= res[i].start < res[i].end <= until
    ensures forall i :: 0 <= i < |res| ==>
              InOneInterval(r, res[i]) || IsLiveOverride(overrides, fromTime, until, res[i])
    ensures !IgnoresOverrides(r, overrides, fromTime) ==>
              forall i :: 0 <= i < |res| ==> AgreesWithOnCall(r, overrides, res[i])
    ensures !IgnoresOverrides(r, overrides, fromTime) ==>
              forall j :: 0 <= j < |overrides| && fromTime < overrides[j].endAt
                          && EffectiveStart(overrides[j], fromTime) < until ==>
                OverridePiece(overrides[j], fromTime, until) in res
    ensures IgnoresOverrides(r, overrides, fromTime) ==>
              forall i :: 0 <= i < |res| ==> RotationPiece(r, res[i], until)
  {
    var start, end, user := Locate(r, fromTime);
    var override: nat := SkipEnded(overrides, fromTime);
    ghost var goal := Schedule(r, overrides, fromTime, until);
    res := [];
    // Merge the overrides with the rotation.
    while override < |overrides| && start <= until
      invariant Pending(overrides, override, fromTime)
      invariant end == Boundary(r, start) && user == RotationIndex(r, start)
      invariant OnTrack(r, overrides, fromTime, until, res, override, start, goal)
      decreases until - start
    {
      ghost var located := start;
      res, override, start := MergeStep(r, overrides, fromTime, until, res, override, start, end, user, goal);
      end, user := Advance(r, located, start, end, user);
    }
    res, start := Fill(r, overrides, fromTime, until, res, override, start, end, user, goal);
    res := TruncateLast(res, until);

    ScheduleSummary(r, overrides, fromTime, until);
  }
}
