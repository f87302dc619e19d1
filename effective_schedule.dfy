/** The effective on-call schedule: the rotation with the overrides laid over
    it, on the window [fromTime, until).  This module defines it as a recursive
    function over instants and proves what it covers and who it puts on call. */
module EffectiveSchedule {
  import opened RotationCursor

  /** An override of the rotation: user is on call on [startAt, endAt). */
  datatype Override = Override(user: string, startAt: int, endAt: int)

  /** One assignment of the schedule: user is on call on [start, end). */
  datatype Entry = Entry(user: string, start: int, end: int)

  function Max(a: int, b: int): int { if a < b then b else a }

  function Min(a: int, b: int): int { if a < b then a else b }

  /** Overrides as they reach the merge: each interval non-empty, sorted by
      start and pairwise disjoint. */
  predicate WellFormed(ov: seq<Override>) {
    && (forall i :: 0 <= i < |ov| ==> ov[i].startAt < ov[i].endAt)
    && (forall i, j :: 0 <= i < j < |ov| ==> ov[i].endAt <= ov[j].startAt)
  }

  /** Where an override takes effect inside the window. */
  function EffectiveStart(o: Override, fromTime: int): int {
    Max(o.startAt, fromTime)
  }

  /** Index of the first override at or after k that still ends after fromTime. */
  function FirstLive(ov: seq<Override>, fromTime: int, k: nat): (i: nat)
    requires k <= |ov|
    ensures k <= i <= |ov|
    ensures forall j :: k <= j < i ==> ov[j].endAt <= fromTime
    ensures i < |ov| ==> fromTime < ov[i].endAt
    decreases |ov| - k
  {
    if k < |ov| && ov[k].endAt <= fromTime then FirstLive(ov, fromTime, k + 1) else k
  }

  /** The overrides still to place start at index k, and the next one is live. */
  predicate Pending(ov: seq<Override>, k: nat, fromTime: int) {
    WellFormed(ov) && k <= |ov| && (k < |ov| ==> fromTime < ov[k].endAt)
  }

  /** s is a run of non-empty entries, each ending where the next begins.
      Adjacency is written with two bound indices, j the successor of i, so
      that its trigger is the pair s[i], s[j]: the one-index form with s[i + 1]
      lets each instantiation create a new index term, and the proofs of the
      schedule then no longer fit the solver's budget. */
  ghost predicate Contiguous(s: seq<Entry>) {
    && (forall i :: 0 <= i < |s| ==> s[i].start < s[i].end)
    && (forall i, j :: 0 <= i < j < |s| && j == i + 1 ==> s[i].end == s[j].start)
  }

  /** s is a run of non-empty, back-to-back entries covering exactly [lo, hi),
      and empty exactly when that range is empty. */
  ghost predicate Tiles(s: seq<Entry>, lo: int, hi: int) {
    && (s == [] <==> hi <= lo)
    && (s != [] ==> s[0].start == lo && s[|s| - 1].end == hi)
    && Contiguous(s)
  }

  /** The schedule from instant t to until, with the overrides ov[k..] still
      to place.  An override whose effective start is t is placed whole; else
      the rotation runs to the next handover or to the next override's
      effective start, whichever is first.  An override whose effective start
      already lies behind t is never placed, and neither is any after it. */
  function ScheduleFrom(r: Rotation, ov: seq<Override>, k: nat, fromTime: int, until: int, t: int): (s: seq<Entry>)
    requires r.Valid() && Pending(ov, k, fromTime)
    ensures Tiles(s, t, until)
    decreases until - t
  {
    if until <= t then []
    else if k < |ov| && EffectiveStart(ov[k], fromTime) == t then
      [Entry(ov[k].user, t, Min(ov[k].endAt, until))]
        + ScheduleFrom(r, ov, k + 1, fromTime, until, ov[k].endAt)
    else
      var b := Boundary(r, t);
      var cut := if k < |ov| && t < EffectiveStart(ov[k], fromTime) < b
                 then EffectiveStart(ov[k], fromTime) else b;
      [Entry(RotationUser(r, t), t, Min(cut, until))]
        + ScheduleFrom(r, ov, k, fromTime, until, cut)
  }

  /** The effective schedule for the window [fromTime, until): it starts at the
      later of fromTime and the first handover, with the overrides that end
      after fromTime. */
  function Schedule(r: Rotation, ov: seq<Override>, fromTime: int, until: int): (s: seq<Entry>)
    requires r.Valid() && WellFormed(ov)
    ensures Tiles(s, Max(fromTime, r.handoverStartAt), until)
  {
    ScheduleFrom(r, ov, FirstLive(ov, fromTime, 0), fromTime, until, Max(fromTime, r.handoverStartAt))
  }

  /** The overrides are disregarded altogether: the first live override takes
      effect before the schedule's first instant, so it is never reached and
      it holds back every override after it. */
  predicate IgnoresOverrides(r: Rotation, ov: seq<Override>, fromTime: int) {
    var k := FirstLive(ov, fromTime, 0);
    k < |ov| && EffectiveStart(ov[k], fromTime) < Max(fromTime, r.handoverStartAt)
  }

  /** Who is on call at instant t: the first override whose interval holds t,
      otherwise the rotation's participant for the interval holding t. */
  function OnCall(r: Rotation, ov: seq<Override>, t: int): string
    requires r.Valid()
  {
    if ov == [] then RotationUser(r, t)
    else if ov[0].startAt <= t < ov[0].endAt then ov[0].user
    else OnCall(r, ov[1..], t)
  }

  /** Entry e names whoever is on call at every instant it covers. */
  ghost predicate AgreesWithOnCall(r: Rotation, ov: seq<Override>, e: Entry)
    requires r.Valid()
  {
    forall x :: e.start <= x < e.end ==> e.user == OnCall(r, ov, x)
  }

  /** Entry e is a rotation interval, clamped to until, with its participant. */
  predicate RotationPiece(r: Rotation, e: Entry, until: int)
    requires r.Valid()
  {
    e.user == RotationUser(r, e.start) && e.end == Min(Boundary(r, e.start), until)
  }

  /** Override o as it shows in the window [fromTime, until). */
  function OverridePiece(o: Override, fromTime: int, until: int): Entry {
    Entry(o.user, EffectiveStart(o, fromTime), Min(o.endAt, until))
  }

  /** Entry e lies inside one rotation interval and names its participant. */
  predicate InOneInterval(r: Rotation, e: Entry)
    requires r.Valid()
  {
    e.user == RotationUser(r, e.start) && e.end <= Boundary(r, e.start)
  }

  /** Entry e is exactly an override that ends after fromTime, as it shows in
      the window [fromTime, until). */
  ghost predicate IsLiveOverride(ov: seq<Override>, fromTime: int, until: int, e: Entry) {
    exists j :: 0 <= j < |ov| && fromTime < ov[j].endAt && e == OverridePiece(ov[j], fromTime, until)
  }

  /** Entry e follows entry prev in the pure rotation: it starts at the
      handover that ends prev's interval, lasts one cadence (clamped to
      until), and its participant is the next one in cyclic order. */
  predicate NextInRotation(r: Rotation, prev: Entry, e: Entry, until: int)
    requires r.Valid()
  {
    && e.start == Boundary(r, prev.start)
    && e.end == Min(e.start + r.Interval(), until)
    && RotationIndex(r, e.start) == (RotationIndex(r, prev.start) + 1) % |r.users|
  }

  // ---------------------------------------------------------------------------
  // Who is on call

  /** Inside an override, that override's user is on call (overrides are disjoint). */
  lemma {:induction false} OnCallInOverride(r: Rotation, ov: seq<Override>, j: nat, t: int)
    requires r.Valid() && WellFormed(ov)
    requires j < |ov| && ov[j].startAt <= t < ov[j].endAt
    ensures OnCall(r, ov, t) == ov[j].user
  {
    if j > 0 {
      assert ov[0].endAt <= ov[j].startAt;
      assert WellFormed(ov[1..]) by {
        forall a, b | 0 <= a < b < |ov[1..]| ensures ov[1..][a].endAt <= ov[1..][b].startAt {
          assert ov[1..][a] == ov[a + 1] && ov[1..][b] == ov[b + 1];
        }
      }
      OnCallInOverride(r, ov[1..], j - 1, t);
    }
  }

  /** Outside every override, the rotation's participant is on call. */
  lemma {:induction false} OnCallOutsideOverrides(r: Rotation, ov: seq<Override>, t: int)
    requires r.Valid()
    requires forall j :: 0 <= j < |ov| ==> !(ov[j].startAt <= t < ov[j].endAt)
    ensures OnCall(r, ov, t) == RotationUser(r, t)
  {
    if ov != [] {
      assert !(ov[0].startAt <= t < ov[0].endAt);
      forall j | 0 <= j < |ov[1..]| ensures !(ov[1..][j].startAt <= t < ov[1..][j].endAt) {
        assert ov[1..][j] == ov[j + 1];
      }
      OnCallOutsideOverrides(r, ov[1..], t);
    }
  }

  /** Effective starts grow along the override list. */
  lemma EffectiveStartsGrow(ov: seq<Override>, fromTime: int, k: nat, j: nat)
    requires WellFormed(ov) && k <= j < |ov|
    ensures EffectiveStart(ov[k], fromTime) <= EffectiveStart(ov[j], fromTime)
  {
    if k < j {
      assert ov[k].endAt <= ov[j].startAt;
    }
  }

  /** Every entry of the schedule from t names the participant on call at each
      of its instants, provided the overrides before k are over by t and the
      next one does not take effect before t. */
  lemma {:induction false} ScheduleFromOnCall(r: Rotation, ov: seq<Override>, k: nat, fromTime: int, until: int, t: int)
    requires r.Valid() && Pending(ov, k, fromTime) && fromTime <= t
    requires forall j :: 0 <= j < k ==> ov[j].endAt <= t
    requires k < |ov| ==> t <= EffectiveStart(ov[k], fromTime)
    ensures forall i :: 0 <= i < |ScheduleFrom(r, ov, k, fromTime, until, t)| ==>
              AgreesWithOnCall(r, ov, ScheduleFrom(r, ov, k, fromTime, until, t)[i])
    decreases until - t
  {
    var s := ScheduleFrom(r, ov, k, fromTime, until, t);
    if until <= t {
    } else if k < |ov| && EffectiveStart(ov[k], fromTime) == t {
      var e := ov[k].endAt;
      var rest := ScheduleFrom(r, ov, k + 1, fromTime, until, e);
      if k + 1 < |ov| {
        assert ov[k].endAt <= ov[k + 1].startAt;
      }
      ScheduleFromOnCall(r, ov, k + 1, fromTime, until, e);
      forall x | s[0].start <= x < s[0].end ensures s[0].user == OnCall(r, ov, x) {
        OnCallInOverride(r, ov, k, x);
      }
      assert s == [s[0]] + rest;
    } else {
      var b := Boundary(r, t);
      var cut := if k < |ov| && t < EffectiveStart(ov[k], fromTime) < b
                 then EffectiveStart(ov[k], fromTime) else b;
      var rest := ScheduleFrom(r, ov, k, fromTime, until, cut);
      forall x | s[0].start <= x < s[0].end ensures s[0].user == OnCall(r, ov, x) {
        SameInterval(r, t, x);
        forall j | 0 <= j < |ov| ensures !(ov[j].startAt <= x < ov[j].endAt) {
          if k <= j {
            EffectiveStartsGrow(ov, fromTime, k, j);
            if k < j {
              assert ov[k].endAt <= ov[j].startAt;
            }
          }
        }
        OnCallOutsideOverrides(r, ov, x);
      }
      ScheduleFromOnCall(r, ov, k, fromTime, until, cut);
      assert s == [s[0]] + rest;
    }
  }

  /** Effective-schedule correctness: unless the first live override takes
      effect before the schedule begins, every entry names whoever is on call
      -- override or rotation -- at every instant it covers. */
  lemma ScheduleOnCall(r: Rotation, ov: seq<Override>, fromTime: int, until: int)
    requires r.Valid() && WellFormed(ov)
    requires !IgnoresOverrides(r, ov, fromTime)
    ensures forall i :: 0 <= i < |Schedule(r, ov, fromTime, until)| ==>
              AgreesWithOnCall(r, ov, Schedule(r, ov, fromTime, until)[i])
  {
    var k := FirstLive(ov, fromTime, 0);
    ScheduleFromOnCall(r, ov, k, fromTime, until, Max(fromTime, r.handoverStartAt));
  }

  // ---------------------------------------------------------------------------
  // Pure rotation

  /** With no override left that can be placed, the schedule from t is the
      rotation itself: each entry is one rotation interval clamped to until,
      and each after the first is the next interval of the rotation. */
  lemma {:induction false} ScheduleFromRotation(r: Rotation, ov: seq<Override>, k: nat, fromTime: int, until: int, t: int)
    requires r.Valid() && Pending(ov, k, fromTime)
    requires k == |ov| || EffectiveStart(ov[k], fromTime) < t
    ensures forall i :: 0 <= i < |ScheduleFrom(r, ov, k, fromTime, until, t)| ==>
              RotationPiece(r, ScheduleFrom(r, ov, k, fromTime, until, t)[i], until)
    ensures forall i :: 0 < i < |ScheduleFrom(r, ov, k, fromTime, until, t)| ==>
              NextInRotation(r, ScheduleFrom(r, ov, k, fromTime, until, t)[i - 1],
                             ScheduleFrom(r, ov, k, fromTime, until, t)[i], until)
    decreases until - t
  {
    var s := ScheduleFrom(r, ov, k, fromTime, until, t);
    if t < until {
      var b := Boundary(r, t);
      var rest := ScheduleFrom(r, ov, k, fromTime, until, b);
      assert s == [Entry(RotationUser(r, t), t, Min(b, until))] + rest;
      ScheduleFromRotation(r, ov, k, fromTime, until, b);
      if rest != [] {
        NextInterval(r, t);
        assert NextInRotation(r, s[0], s[1], until);
      }
      forall i | 0 < i < |s| ensures NextInRotation(r, s[i - 1], s[i], until) {
        if 1 < i {
          assert s[i - 1] == rest[i - 2] && s[i] == rest[i - 1];
        }
      }
      forall i | 0 < i < |s| ensures RotationPiece(r, s[i], until) {
        assert s[i] == rest[i - 1];
      }
    }
  }

  /** With no live override, or when the overrides are disregarded, the
      schedule is the pure rotation: whole intervals clamped to the window,
      the participants cycling in order. */
  lemma ScheduleRotation(r: Rotation, ov: seq<Override>, fromTime: int, until: int)
    requires r.Valid() && WellFormed(ov)
    requires FirstLive(ov, fromTime, 0) == |ov| || IgnoresOverrides(r, ov, fromTime)
    ensures forall i :: 0 <= i < |Schedule(r, ov, fromTime, until)| ==>
              RotationPiece(r, Schedule(r, ov, fromTime, until)[i], until)
    ensures forall i :: 0 < i < |Schedule(r, ov, fromTime, until)| ==>
              NextInRotation(r, Schedule(r, ov, fromTime, until)[i - 1], Schedule(r, ov, fromTime, until)[i], until)
  {
    ScheduleFromRotation(r, ov, FirstLive(ov, fromTime, 0), fromTime, until, Max(fromTime, r.handoverStartAt));
  }

  // ---------------------------------------------------------------------------
  // Where entries come from

  /** Every entry from t is either a piece of one rotation interval carrying
      that interval's participant, or exactly a live override as it shows in
      the window. */
  lemma {:induction false} ScheduleFromProvenance(r: Rotation, ov: seq<Override>, k: nat, fromTime: int, until: int, t: int)
    requires r.Valid() && Pending(ov, k, fromTime)
    ensures forall i :: 0 <= i < |ScheduleFrom(r, ov, k, fromTime, until, t)| ==>
              var e := ScheduleFrom(r, ov, k, fromTime, until, t)[i];
              InOneInterval(r, e) || IsLiveOverride(ov, fromTime, until, e)
    decreases until - t
  {
    var s := ScheduleFrom(r, ov, k, fromTime, until, t);
    if until <= t {
    } else if k < |ov| && EffectiveStart(ov[k], fromTime) == t {
      var rest := ScheduleFrom(r, ov, k + 1, fromTime, until, ov[k].endAt);
      if k + 1 < |ov| {
        assert ov[k].endAt <= ov[k + 1].startAt;
      }
      ScheduleFromProvenance(r, ov, k + 1, fromTime, until, ov[k].endAt);
      assert s[0] == OverridePiece(ov[k], fromTime, until);
      assert IsLiveOverride(ov, fromTime, until, s[0]);
      forall i | 0 < i < |s| ensures InOneInterval(r, s[i]) || IsLiveOverride(ov, fromTime, until, s[i]) {
        assert s[i] == rest[i - 1];
      }
    } else {
      var b := Boundary(r, t);
      var cut := if k < |ov| && t < EffectiveStart(ov[k], fromTime) < b
                 then EffectiveStart(ov[k], fromTime) else b;
      var rest := ScheduleFrom(r, ov, k, fromTime, until, cut);
      ScheduleFromProvenance(r, ov, k, fromTime, until, cut);
      assert InOneInterval(r, s[0]);
      forall i | 0 < i < |s| ensures InOneInterval(r, s[i]) || IsLiveOverride(ov, fromTime, until, s[i]) {
        assert s[i] == rest[i - 1];
      }
    }
  }

  /** Every entry of the schedule is a piece of one rotation interval with its
      participant, or exactly an override that ends after fromTime, clamped to
      until: an override that is over by fromTime never shows. */
  lemma ScheduleProvenance(r: Rotation, ov: seq<Override>, fromTime: int, until: int)
    requires r.Valid() && WellFormed(ov)
    ensures forall i :: 0 <= i < |Schedule(r, ov, fromTime, until)| ==>
              var e := Schedule(r, ov, fromTime, until)[i];
              InOneInterval(r, e) || IsLiveOverride(ov, fromTime, until, e)
  {
    ScheduleFromProvenance(r, ov, FirstLive(ov, fromTime, 0), fromTime, until, Max(fromTime, r.handoverStartAt));
  }

  /** Every pending override taking effect before until shows as an entry of
      its own, provided the next one does not take effect before t. */
  lemma {:induction false} ScheduleFromShowsOverrides(r: Rotation, ov: seq<Override>, k: nat, fromTime: int, until: int, t: int)
    requires r.Valid() && Pending(ov, k, fromTime)
    requires k < |ov| ==> t <= EffectiveStart(ov[k], fromTime)
    ensures forall j :: k <= j < |ov| && EffectiveStart(ov[j], fromTime) < until ==>
              OverridePiece(ov[j], fromTime, until) in ScheduleFrom(r, ov, k, fromTime, until, t)
    decreases until - t
  {
    var s := ScheduleFrom(r, ov, k, fromTime, until, t);
    if until <= t {
      forall j | k <= j < |ov| ensures until <= EffectiveStart(ov[j], fromTime) {
        EffectiveStartsGrow(ov, fromTime, k, j);
      }
    } else if k < |ov| && EffectiveStart(ov[k], fromTime) == t {
      var rest := ScheduleFrom(r, ov, k + 1, fromTime, until, ov[k].endAt);
      if k + 1 < |ov| {
        assert ov[k].endAt <= ov[k + 1].startAt;
      }
      ScheduleFromShowsOverrides(r, ov, k + 1, fromTime, until, ov[k].endAt);
      assert s == [OverridePiece(ov[k], fromTime, until)] + rest;
    } else {
      var b := Boundary(r, t);
      var cut := if k < |ov| && t < EffectiveStart(ov[k], fromTime) < b
                 then EffectiveStart(ov[k], fromTime) else b;
      var rest := ScheduleFrom(r, ov, k, fromTime, until, cut);
      ScheduleFromShowsOverrides(r, ov, k, fromTime, until, cut);
      assert s == [s[0]] + rest;
    }
  }

  /** Override precedence: unless the overrides are disregarded, every override
      that ends after fromTime and takes effect before until shows as an entry
      of its own, [max(startAt, fromTime), min(endAt, until)), with its user. */
  lemma ScheduleShowsOverrides(r: Rotation, ov: seq<Override>, fromTime: int, until: int)
    requires r.Valid() && WellFormed(ov)
    requires !IgnoresOverrides(r, ov, fromTime)
    ensures forall j :: 0 <= j < |ov| && fromTime < ov[j].endAt && EffectiveStart(ov[j], fromTime) < until ==>
              OverridePiece(ov[j], fromTime, until) in Schedule(r, ov, fromTime, until)
  {
    var k := FirstLive(ov, fromTime, 0);
    ScheduleFromShowsOverrides(r, ov, k, fromTime, until, Max(fromTime, r.handoverStartAt));
  }

  // ---------------------------------------------------------------------------
  // Order

  /** Back-to-back non-empty entries are in strictly increasing order and
      pairwise disjoint. */
  lemma {:induction false} ContiguousOrdered(s: seq<Entry>)
    requires Contiguous(s)
    ensures forall i, j :: 0 <= i < j < |s| ==> s[i].end <= s[j].start
  {
    if s != [] {
      var rest := s[1..];
      assert Contiguous(rest) by {
        forall i | 0 <= i < |rest| - 1 ensures rest[i].end == rest[i + 1].start {
          assert s[i + 1].end == s[i + 2].start;
        }
      }
      ContiguousOrdered(rest);
      forall i, j | 0 <= i < j < |s| ensures s[i].end <= s[j].start {
        if 0 < i {
          assert s[i] == rest[i - 1] && s[j] == rest[j - 1];
        } else if 1 < j {
          assert s[1] == rest[0] && s[j] == rest[j - 1];
        }
      }
    }
  }

  /** Ordering and coverage: entries that tile [lo, hi) are strictly
      increasing, pairwise disjoint and inside [lo, hi). */
  lemma TilesOrdered(s: seq<Entry>, lo: int, hi: int)
    requires Tiles(s, lo, hi)
    ensures forall i :: 0 <= i < |s| ==> lo <= s[i].start && s[i].end <= hi
    ensures forall i, j :: 0 <= i < j < |s| ==> s[i].end <= s[j].start
  {
    ContiguousOrdered(s);
    forall i | 0 <= i < |s| ensures lo <= s[i].start && s[i].end <= hi {
      if 0 < i {
        assert s[0].end <= s[i].start;
      }
      if i < |s| - 1 {
        assert s[i].end <= s[|s| - 1].start;
      }
    }
  }

  // ---------------------------------------------------------------------------
  // Everything at once

  /** What the schedule for a window promises, gathered in one place: the
      range it covers and its bounds, where each entry comes from, agreement
      with OnCall and the overrides shown outside the hidden-overrides case,
      and the pure rotation inside it. */
  lemma ScheduleSummary(r: Rotation, ov: seq<Override>, fromTime: int, until: int)
    requires r.Valid() && WellFormed(ov)
    ensures var s := Schedule(r, ov, fromTime, until);
      && (s == [] <==> until <= Max(fromTime, r.handoverStartAt))
      && (forall i :: 0 <= i < |s| ==>
            Max(fromTime, r.handoverStartAt) <= s[i].start < s[i].end <= until)
      && (forall i :: 0 <= i < |s| ==>
            InOneInterval(r, s[i]) || IsLiveOverride(ov, fromTime, until, s[i]))
      && (!IgnoresOverrides(r, ov, fromTime) ==>
            forall i :: 0 <= i < |s| ==> AgreesWithOnCall(r, ov, s[i]))
      && (!IgnoresOverrides(r, ov, fromTime) ==>
            forall j :: 0 <= j < |ov| && fromTime < ov[j].endAt && EffectiveStart(ov[j], fromTime) < until ==>
              OverridePiece(ov[j], fromTime, until) in s)
      && (IgnoresOverrides(r, ov, fromTime) ==>
            forall i :: 0 <= i < |s| ==> RotationPiece(r, s[i], until))
  {
    TilesOrdered(Schedule(r, ov, fromTime, until), Max(fromTime, r.handoverStartAt), until);
    ScheduleProvenance(r, ov, fromTime, until);
    if IgnoresOverrides(r, ov, fromTime) {
      ScheduleRotation(r, ov, fromTime, until);
    } else {
      ScheduleOnCall(r, ov, fromTime, until);
      ScheduleShowsOverrides(r, ov, fromTime, until);
    }
  }
}
