/** The rotation cursor: which handover interval contains an instant, and which
    participant of the rotation is on call in it.  Instants are whole seconds. */
module RotationCursor {

  const SecondsPerDay: int := 86400

  /** The schedule file's rotation: the first handover instant, the handover
      cadence in whole days, and the participants in rotation order. */
  datatype Rotation = Rotation(handoverStartAt: int, intervalDays: int, users: seq<string>) {

    /** A rotation the merge can use: a positive cadence and at least one participant. */
    predicate Valid() {
      intervalDays > 0 && |users| > 0
    }

    /** The handover interval as a duration in seconds. */
    function Interval(): (iv: int)
      requires Valid()
      ensures iv >= SecondsPerDay
    {
      intervalDays * SecondsPerDay
    }
  }

  /** Euclidean division is determined by its quotient-remainder decomposition. */
  lemma DivModUnique(x: int, n: int, q: int, m: int)
    requires n > 0 && 0 <= m < n && x == q * n + m
    ensures x / n == q && x % n == m
  {
    var q', m' := x / n, x % n;
    assert (q - q') * n == m' - m;
    SmallMultiple(q - q', n);
  }

  /** The only multiple of n strictly between -n and n is 0. */
  lemma SmallMultiple(d: int, n: int)
    requires n > 0 && -n < d * n < n
    ensures d == 0
  {
  }

  /** Number of whole handover intervals elapsed from the first handover to t
      (floor division, as the source's timedelta division). */
  function Elapsed(r: Rotation, t: int): int
    requires r.Valid()
  {
    (t - r.handoverStartAt) / r.Interval()
  }

  /** The end of the handover interval that contains t: the first handover
      instant strictly after t. */
  function Boundary(r: Rotation, t: int): (b: int)
    requires r.Valid()
    ensures b - r.Interval() <= t < b
    ensures (b - r.handoverStartAt) % r.Interval() == 0
  {
    var iv := r.Interval();
    var q := Elapsed(r, t);
    assert t - r.handoverStartAt == q * iv + (t - r.handoverStartAt) % iv;
    assert (q + 1) * iv == q * iv + iv;
    DivModUnique((q + 1) * iv, iv, q + 1, 0);
    r.handoverStartAt + (q + 1) * iv
  }

  /** Index of the participant on call in the interval that contains t. */
  function RotationIndex(r: Rotation, t: int): (i: int)
    requires r.Valid()
    ensures 0 <= i < |r.users|
  {
    Elapsed(r, t) % |r.users|
  }

  /** The participant the rotation puts on call at t. */
  function RotationUser(r: Rotation, t: int): string
    requires r.Valid()
  {
    r.users[RotationIndex(r, t)]
  }

  /** Cyclic successor modulo n, written without the remainder of a sum. */
  lemma ModSucc(q: int, n: int)
    requires n > 0
    ensures (q + 1) % n == (q % n + 1) % n
  {
    var a, m := q / n, q % n;
    if m + 1 < n {
      DivModUnique(q + 1, n, a, m + 1);
      DivModUnique(m + 1, n, 0, m + 1);
    } else {
      assert (a + 1) * n == a * n + n;
      DivModUnique(q + 1, n, a + 1, 0);
      DivModUnique(m + 1, n, 1, 0);
    }
  }

  /** The cursor located at the first handover: the interval
      [handoverStartAt, handoverStartAt + interval) and participant 0. */
  lemma FirstInterval(r: Rotation)
    requires r.Valid()
    ensures Boundary(r, r.handoverStartAt) == r.handoverStartAt + r.Interval()
    ensures RotationIndex(r, r.handoverStartAt) == 0
  {
  }

  /** Advancing the cursor by one interval: the next interval is exactly one
      cadence long and the next participant in cyclic order is on call. */
  lemma NextInterval(r: Rotation, t: int)
    requires r.Valid()
    ensures Boundary(r, Boundary(r, t)) == Boundary(r, t) + r.Interval()
    ensures RotationIndex(r, Boundary(r, t)) == (RotationIndex(r, t) + 1) % |r.users|
  {
    var iv, h, q := r.Interval(), r.handoverStartAt, Elapsed(r, t);
    var b := Boundary(r, t);
    assert b - h == (q + 1) * iv + 0;
    DivModUnique(b - h, iv, q + 1, 0);
    assert Elapsed(r, b) == q + 1;
    assert (q + 2) * iv == (q + 1) * iv + iv;
    ModSucc(q, |r.users|);
  }

  /** Every instant of an interval is located in that same interval, with the
      same participant: the assignment depends only on elapsed intervals. */
  lemma SameInterval(r: Rotation, t: int, x: int)
    requires r.Valid()
    requires t <= x < Boundary(r, t)
    ensures Boundary(r, x) == Boundary(r, t)
    ensures Elapsed(r, x) == Elapsed(r, t)
    ensures RotationIndex(r, x) == RotationIndex(r, t)
    ensures RotationUser(r, x) == RotationUser(r, t)
  {
    var iv, h, q := r.Interval(), r.handoverStartAt, Elapsed(r, t);
    assert t - h == q * iv + (t - h) % iv;
    assert (q + 1) * iv == q * iv + iv;
    DivModUnique(x - h, iv, q, x - h - q * iv);
  }

  /** An instant bracketed by the m-th handover boundary lies in the interval
      that boundary closes: elapsed intervals m - 1, participant (m - 1) mod N. */
  lemma Bracketed(r: Rotation, t: int, m: int)
    requires r.Valid()
    requires r.handoverStartAt + m * r.Interval() - r.Interval() <= t < r.handoverStartAt + m * r.Interval()
    ensures Elapsed(r, t) == m - 1
    ensures Boundary(r, t) == r.handoverStartAt + m * r.Interval()
    ensures RotationIndex(r, t) == (m - 1) % |r.users|
  {
    var iv, h := r.Interval(), r.handoverStartAt;
    assert (m - 1) * iv == m * iv - iv;
    DivModUnique(t - h, iv, m - 1, t - h - (m - 1) * iv);
  }
}
