/** Worked windows of the effective schedule, one per behaviour of the merge:
    a plain rotation, an override splitting and rejoining it, and an override
    that has already begun at the window's start. */
module ScheduleExamples {
  import opened RotationCursor
  import opened EffectiveSchedule

  const D: int := SecondsPerDay

  /** A weekly rotation of three participants handing over at instant 0. */
  function Weekly(): (r: Rotation)
    ensures r.Valid() && r.Interval() == 7 * D
  {
    Rotation(0, 7, ["A", "B", "C"])
  }

  /** Without overrides the window [9, 19) days starts mid-interval with the
      second participant and hands over at day 14, the last entry cut at until. */
  lemma PlainRotation()
    ensures Schedule(Weekly(), [], 9 * D, 19 * D)
            == [Entry("B", 9 * D, 14 * D), Entry("C", 14 * D, 19 * D)]
  {
    var r := Weekly();
    Bracketed(r, 9 * D, 2);
    Bracketed(r, 14 * D, 3);
    assert RotationUser(r, 9 * D) == "B" && RotationUser(r, 14 * D) == "C";
    assert FirstLive([], 9 * D, 0) == 0;
    assert ScheduleFrom(r, [], 0, 9 * D, 19 * D, 21 * D) == [];
    assert ScheduleFrom(r, [], 0, 9 * D, 19 * D, 14 * D) == [Entry("C", 14 * D, 19 * D)];
    assert ScheduleFrom(r, [], 0, 9 * D, 19 * D, 9 * D) == [Entry("B", 9 * D, 14 * D), Entry("C", 14 * D, 19 * D)];
  }

  /** From the override's start on: the override, then the rotation again. */
  lemma AfterSplit()
    ensures ScheduleFrom(Weekly(), [Override("X", 11 * D, 15 * D)], 0, 9 * D, 19 * D, 11 * D)
            == [Entry("X", 11 * D, 15 * D), Entry("C", 15 * D, 19 * D)]
  {
    var r, ov := Weekly(), [Override("X", 11 * D, 15 * D)];
    Bracketed(r, 15 * D, 3);
    assert RotationUser(r, 15 * D) == "C";
    assert ScheduleFrom(r, ov, 1, 9 * D, 19 * D, 21 * D) == [];
    assert ScheduleFrom(r, ov, 1, 9 * D, 19 * D, 15 * D) == [Entry("C", 15 * D, 19 * D)];
  }

  /** An override inside the window splits the rotation before it and the
      rotation resumes at its end, with whoever the rotation has on call then. */
  lemma OverrideSplitsRotation()
    ensures Schedule(Weekly(), [Override("X", 11 * D, 15 * D)], 9 * D, 19 * D)
            == [Entry("B", 9 * D, 11 * D), Entry("X", 11 * D, 15 * D), Entry("C", 15 * D, 19 * D)]
  {
    var r, ov := Weekly(), [Override("X", 11 * D, 15 * D)];
    Bracketed(r, 9 * D, 2);
    assert RotationUser(r, 9 * D) == "B";
    assert FirstLive(ov, 9 * D, 0) == 0;
    AfterSplit();
  }

  /** An override already running when the window opens, but ending after
      fromTime, is shown from fromTime to its end. */
  lemma OverrideAtWindowStart()
    ensures Schedule(Weekly(), [Override("X", 5 * D, 10 * D)], 9 * D, 19 * D)
            == [Entry("X", 9 * D, 10 * D), Entry("B", 10 * D, 14 * D), Entry("C", 14 * D, 19 * D)]
  {
    var r, ov := Weekly(), [Override("X", 5 * D, 10 * D)];
    Bracketed(r, 10 * D, 2);
    Bracketed(r, 14 * D, 3);
    assert RotationUser(r, 10 * D) == "B" && RotationUser(r, 14 * D) == "C";
    assert FirstLive(ov, 9 * D, 0) == 0;
    assert ScheduleFrom(r, ov, 1, 9 * D, 19 * D, 21 * D) == [];
    assert ScheduleFrom(r, ov, 1, 9 * D, 19 * D, 14 * D) == [Entry("C", 14 * D, 19 * D)];
    assert ScheduleFrom(r, ov, 1, 9 * D, 19 * D, 10 * D)
           == [Entry("B", 10 * D, 14 * D), Entry("C", 14 * D, 19 * D)];
    assert ScheduleFrom(r, ov, 0, 9 * D, 19 * D, 9 * D)
           == [Entry("X", 9 * D, 10 * D), Entry("B", 10 * D, 14 * D), Entry("C", 14 * D, 19 * D)];
  }

  /** When the first live override takes effect before the rotation's first
      handover, which lies after fromTime, no override ever matches the
      cursor and the window shows the bare rotation: the override [0, 2) days
      is hidden, although it covers the first handover instant, and so is
      [10, 12) days. */
  lemma OverridesBeforeFirstHandover()
    ensures IgnoresOverrides(Rotation(1 * D, 7, ["A", "B"]),
                             [Override("X", 0, 2 * D), Override("Y", 10 * D, 12 * D)], 0)
    ensures Schedule(Rotation(1 * D, 7, ["A", "B"]),
                     [Override("X", 0, 2 * D), Override("Y", 10 * D, 12 * D)], 0, 16 * D)
            == [Entry("A", 1 * D, 8 * D), Entry("B", 8 * D, 15 * D), Entry("A", 15 * D, 16 * D)]
  {
    var r, ov := Rotation(1 * D, 7, ["A", "B"]), [Override("X", 0, 2 * D), Override("Y", 10 * D, 12 * D)];
    assert r.Interval() == 7 * D;
    FirstInterval(r);
    Bracketed(r, 8 * D, 2);
    Bracketed(r, 15 * D, 3);
    assert RotationUser(r, 1 * D) == "A" && RotationUser(r, 8 * D) == "B" && RotationUser(r, 15 * D) == "A";
    assert FirstLive(ov, 0, 0) == 0;
    assert ScheduleFrom(r, ov, 0, 0, 16 * D, 22 * D) == [];
    assert ScheduleFrom(r, ov, 0, 0, 16 * D, 15 * D) == [Entry("A", 15 * D, 16 * D)];
    assert ScheduleFrom(r, ov, 0, 0, 16 * D, 8 * D)
           == [Entry("B", 8 * D, 15 * D), Entry("A", 15 * D, 16 * D)];
    assert ScheduleFrom(r, ov, 0, 0, 16 * D, 1 * D)
           == [Entry("A", 1 * D, 8 * D), Entry("B", 8 * D, 15 * D), Entry("A", 15 * D, 16 * D)];
  }

  /** In that window the override X is on call at the first handover instant,
      while the schedule shows A there. */
  lemma HiddenOverrideOnCall()
    ensures OnCall(Rotation(1 * D, 7, ["A", "B"]),
                   [Override("X", 0, 2 * D), Override("Y", 10 * D, 12 * D)], 1 * D) == "X"
  {
    OnCallInOverride(Rotation(1 * D, 7, ["A", "B"]),
                     [Override("X", 0, 2 * D), Override("Y", 10 * D, 12 * D)], 0, 1 * D);
  }
}
