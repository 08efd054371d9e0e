/** fc::microseconds and the unit helpers seconds() and milliseconds(): a duration
    is one signed 64-bit count of microseconds. Signed overflow is undefined in
    C++, so every operation that adds or multiplies counts requires, through
    FitsInt64, that its exact result fits. */
module Durations {
  import opened Integers

  datatype Microseconds = Microseconds(count: int64)

  /** microseconds(): the default count is 0. */
  function Zero(): (m: Microseconds)
    ensures Count(m) == 0
  {
    Microseconds(0)
  }

  /** count(): the wrapped count, from which the duration is rebuilt. */
  function Count(m: Microseconds): (c: int64)
    ensures Microseconds(c) == m
  {
    m.count
  }

  /** microseconds::maximum(): the largest int64 count, not below any duration. */
  function Maximum(): (m: Microseconds)
    ensures Count(m) as int == INT64_MAX
    ensures forall n: Microseconds :: Le(n, m)
  {
    Microseconds(0x7fff_ffff_ffff_ffff)
  }

  /** operator+: adds counts. */
  function Plus(l: Microseconds, r: Microseconds): (m: Microseconds)
    requires FitsInt64(l.count as int + r.count as int)
    ensures Count(m) as int == Count(l) as int + Count(r) as int
  {
    Microseconds((l.count as int + r.count as int) as int64)
  }

  /** operator+=: the new value of the left operand (the right one is passed by
      const reference and left alone). */
  function PlusAssign(a: Microseconds, c: Microseconds): (a': Microseconds)
    requires FitsInt64(a.count as int + c.count as int)
    ensures a' == Plus(a, c)
  {
    var sum := a.count as int + c.count as int;
    a.(count := sum as int64)
  }

  predicate Eq(a: Microseconds, b: Microseconds) { a.count == b.count }
  predicate Gt(a: Microseconds, b: Microseconds) { a.count > b.count }
  predicate Ge(a: Microseconds, b: Microseconds) { a.count >= b.count }
  predicate Lt(a: Microseconds, b: Microseconds) { a.count < b.count }
  predicate Le(a: Microseconds, b: Microseconds) { a.count <= b.count }

  /** The comparisons are integer comparison of count(); == is value equality. */
  lemma ComparisonsFollowCount(a: Microseconds, b: Microseconds)
    ensures Eq(a, b) <==> Count(a) == Count(b)
    ensures Eq(a, b) <==> a == b
    ensures Lt(a, b) <==> Count(a) < Count(b)
    ensures Le(a, b) <==> Count(a) <= Count(b)
    ensures Gt(a, b) <==> Count(a) > Count(b)
    ensures Ge(a, b) <==> Count(a) >= Count(b)
  {
  }

  /** <= is a total order and < its strict part; > and >= are their converses;
      exactly one of <, ==, > holds. */
  lemma ComparisonsFormTotalOrder(a: Microseconds, b: Microseconds, c: Microseconds)
    ensures Le(a, a)
    ensures Le(a, b) && Le(b, a) ==> a == b
    ensures Le(a, b) && Le(b, c) ==> Le(a, c)
    ensures Le(a, b) || Le(b, a)
    ensures Lt(a, b) <==> Le(a, b) && !Eq(a, b)
    ensures Gt(a, b) <==> Lt(b, a)
    ensures Ge(a, b) <==> Le(b, a)
    ensures Lt(a, b) ==> !Eq(a, b) && !Gt(a, b)
    ensures Eq(a, b) ==> !Gt(a, b)
    ensures Lt(a, b) || Eq(a, b) || Gt(a, b)
  {
  }

  /** seconds(s): s million microseconds. */
  function Seconds(s: int64): (m: Microseconds)
    requires FitsInt64(s as int * 1000000)
    ensures Count(m) as int == s as int * 1000000
  {
    Microseconds((s as int * 1000000) as int64)
  }

  /** milliseconds(s): s thousand microseconds. */
  function Milliseconds(s: int64): (m: Microseconds)
    requires FitsInt64(s as int * 1000)
    ensures Count(m) as int == s as int * 1000
  {
    Microseconds((s as int * 1000) as int64)
  }

  /** seconds(s) does not overflow for exactly the s whose magnitude is at most
      9223372036854, and milliseconds(s) for magnitudes up to 9223372036854775. */
  lemma UnitHelpersRange(s: int64)
    ensures FitsInt64(s as int * 1000000) <==> -9223372036854 <= s as int <= 9223372036854
    ensures FitsInt64(s as int * 1000) <==> -9223372036854775 <= s as int <= 9223372036854775
  {
  }

  /** seconds(s) is milliseconds(1000 * s). */
  lemma SecondsAreThousandMilliseconds(s: int64)
    requires FitsInt64(s as int * 1000000)
    ensures FitsInt64(s as int * 1000) && FitsInt64(s as int * 1000 * 1000)
    ensures Seconds(s) == Milliseconds((s as int * 1000) as int64)
  {
  }
}

/** fc::time_point: a duration since the epoch, compared and shifted by its count. */
module TimePoints {
  import opened Integers
  import Durations

  datatype TimePoint = TimePoint(elapsed: Durations.Microseconds)

  /** time_point(): the default duration, so the epoch itself. */
  function Epoch(): (t: TimePoint)
    ensures Durations.Count(TimeSinceEpoch(t)) == 0
  {
    TimePoint(Durations.Zero())
  }

  /** time_since_epoch(): the wrapped duration. */
  function TimeSinceEpoch(t: TimePoint): (m: Durations.Microseconds)
    ensures TimePoint(m) == t
  {
    t.elapsed
  }

  /** time_point::maximum(): the largest duration, at or after every time point. */
  function Maximum(): (t: TimePoint)
    ensures Durations.Count(TimeSinceEpoch(t)) as int == INT64_MAX
    ensures forall u: TimePoint :: Le(u, t)
  {
    TimePoint(Durations.Maximum())
  }

  /** time_point::min(): a default time point, that is the epoch. */
  function Min(): (t: TimePoint)
    ensures t == Epoch()
  {
    TimePoint(Durations.Microseconds(0))
  }

  /** min() is the epoch, not the least representable time point: exactly the
      times before the epoch compare below it, the one at -1 us among them. */
  lemma MinIsEpochNotLeast()
    ensures Durations.Count(TimeSinceEpoch(Min())) == 0
    ensures forall t: TimePoint :: Lt(t, Min()) <==> Durations.Count(TimeSinceEpoch(t)) < 0
    ensures Lt(TimePoint(Durations.Microseconds(-1)), Min())
  {
  }

  predicate Gt(a: TimePoint, b: TimePoint) { a.elapsed.count > b.elapsed.count }
  predicate Ge(a: TimePoint, b: TimePoint) { a.elapsed.count >= b.elapsed.count }
  predicate Lt(a: TimePoint, b: TimePoint) { a.elapsed.count < b.elapsed.count }
  predicate Le(a: TimePoint, b: TimePoint) { a.elapsed.count <= b.elapsed.count }
  predicate Eq(a: TimePoint, b: TimePoint) { a.elapsed.count == b.elapsed.count }
  predicate Ne(a: TimePoint, b: TimePoint) { a.elapsed.count != b.elapsed.count }

  /** Comparing time points is comparing their durations since the epoch, and
      != is the negation of ==, which is value equality. */
  lemma ComparisonsFollowTimeSinceEpoch(a: TimePoint, b: TimePoint)
    ensures Gt(a, b) <==> Durations.Gt(TimeSinceEpoch(a), TimeSinceEpoch(b))
    ensures Ge(a, b) <==> Durations.Ge(TimeSinceEpoch(a), TimeSinceEpoch(b))
    ensures Lt(a, b) <==> Durations.Lt(TimeSinceEpoch(a), TimeSinceEpoch(b))
    ensures Le(a, b) <==> Durations.Le(TimeSinceEpoch(a), TimeSinceEpoch(b))
    ensures Eq(a, b) <==> Durations.Eq(TimeSinceEpoch(a), TimeSinceEpoch(b))
    ensures Ne(a, b) <==> !Eq(a, b)
    ensures Eq(a, b) <==> a == b
  {
  }

  /** operator+(time_point, microseconds): shifts the count. */
  function Plus(t: TimePoint, m: Durations.Microseconds): (u: TimePoint)
    requires FitsInt64(t.elapsed.count as int + m.count as int)
    ensures Durations.Count(TimeSinceEpoch(u)) as int == Durations.Count(TimeSinceEpoch(t)) as int + Durations.Count(m) as int
  {
    TimePoint(Durations.Plus(t.elapsed, m))
  }

  /** operator+=: the new value of t, through microseconds' +=. */
  function PlusAssign(t: TimePoint, m: Durations.Microseconds): (t': TimePoint)
    requires FitsInt64(t.elapsed.count as int + m.count as int)
    ensures t' == Plus(t, m)
  {
    t.(elapsed := Durations.PlusAssign(t.elapsed, m))
  }

  /** operator-(time_point, time_point): the duration from m to t. */
  function Minus(t: TimePoint, m: TimePoint): (d: Durations.Microseconds)
    requires FitsInt64(t.elapsed.count as int - m.elapsed.count as int)
    ensures Durations.Count(d) as int == Durations.Count(TimeSinceEpoch(t)) as int - Durations.Count(TimeSinceEpoch(m)) as int
  {
    Durations.Microseconds((t.elapsed.count as int - m.elapsed.count as int) as int64)
  }

  /** Subtraction undoes addition, and adding a difference reaches its minuend. */
  lemma MinusInvertsPlus(t: TimePoint, u: TimePoint, m: Durations.Microseconds)
    ensures FitsInt64(t.elapsed.count as int + m.count as int) ==> Minus(Plus(t, m), t) == m
    ensures FitsInt64(u.elapsed.count as int - t.elapsed.count as int) ==> Plus(t, Minus(u, t)) == u
  {
  }

  /** Adding a non-negative duration never moves a time point backwards. */
  lemma PlusIsMonotone(t: TimePoint, m: Durations.Microseconds)
    requires FitsInt64(t.elapsed.count as int + m.count as int)
    ensures Durations.Le(Durations.Zero(), m) <==> Le(t, Plus(t, m))
  {
  }
}
