/** The offset and delay formulas of section 8 of RFC 5905, on 64-bit machine integers. */
module ClockSynchronisation {
  const RANGE: int := 0x1_0000_0000_0000_0000
  const HALF: int := 0x8000_0000_0000_0000

  type uint64 = n: int | 0 <= n < RANGE
  type int64 = n: int | -HALF <= n < HALF

  function Unsigned(n: int): uint64 {
    n % RANGE
  }

  /** Two's complement reading of a 64-bit value. */
  function Signed(n: int): (r: int64)
    ensures Unsigned(r) == Unsigned(n)
    ensures -HALF <= n < HALF ==> r == n
  {
    Congruent(Unsigned(n + HALF) - HALF, n, -((n + HALF) / RANGE));
    Unsigned(n + HALF) - HALF
  }

  lemma Congruent(a: int, b: int, k: int)
    requires a == b + k * RANGE
    ensures Unsigned(a) == Unsigned(b)
  {
  }

  /** Signed division by two truncates toward zero. */
  function Halved(n: int): int {
    if n >= 0 then n / 2 else -((-n) / 2)
  }

  function Offset(t0: uint64, t1: uint64, t2: uint64, t3: uint64): int64 {
    var sum := Signed(Signed(t1 - t0) + Signed(t2 - t3));
    Halved(sum)
  }

  function RoundTripTime(t0: uint64, t1: uint64, t2: uint64, t3: uint64): uint64 {
    var rtt := Signed(Signed(t3 - t0) - Signed(t2 - t1));
    if rtt > 0 then rtt else 0
  }

  function HostTime(offset: int64, clientTime: uint64): uint64 {
    Unsigned(Signed(Signed(clientTime) + offset))
  }

  function ClientTime(offset: int64, hostTime: uint64): uint64 {
    Unsigned(Signed(Signed(hostTime) - offset))
  }

  class ClockSync {
    var clockOffset: int64
    var rtt: uint64
    var synchronized: bool

    constructor ()
      ensures clockOffset == 0 && rtt == 0 && !synchronized
    {
      clockOffset, rtt, synchronized := 0, 0, false;
    }

    /** Takes one exchange: client send, host receive, host send, client receive. */
    method ProcessResponse(t0: uint64, t1: uint64, t2: uint64, t3: uint64)
      modifies this
      ensures clockOffset == Offset(t0, t1, t2, t3) && rtt == RoundTripTime(t0, t1, t2, t3) && synchronized
    {
      var trip := Signed(Signed(t3 - t0) - Signed(t2 - t1));
      var sum := Signed(Signed(t1 - t0) + Signed(t2 - t3));
      rtt := if trip > 0 then trip else 0;
      clockOffset := Halved(sum);
      synchronized := true;
    }

    function GetHostTime(clientTime: uint64): uint64
      reads this
    {
      HostTime(clockOffset, clientTime)
    }

    function GetClientTime(hostTime: uint64): uint64
      reads this
    {
      ClientTime(clockOffset, hostTime)
    }
  }

  // ---------------------------------------------------------------- modular arithmetic

  lemma AddCongruent(a: int, b: int, o: int)
    requires Unsigned(a) == Unsigned(b)
    ensures Unsigned(a + o) == Unsigned(b + o)
  {
    Congruent(a + o, b + o, a / RANGE - b / RANGE);
  }

  lemma WrappedTwice(a: int)
    ensures Unsigned(Unsigned(a)) == Unsigned(a)
  {
  }

  /** Reading a 64-bit time as signed, shifting it and wrapping is shifting it modulo 2^64. */
  lemma Shifted(time: uint64, o: int)
    ensures Unsigned(Signed(Signed(time) + o)) == Unsigned(time + o)
  {
    AddCongruent(Signed(time), time, o);
  }

  lemma ShiftedBack(time: uint64, o: int)
    ensures Unsigned(Unsigned(time + o) - o) == time
  {
    WrappedTwice(time + o);
    AddCongruent(Unsigned(time + o), time + o, -o);
  }

  lemma ThereAndBack(time: uint64, o: int)
    ensures Unsigned(Signed(Signed(Unsigned(Signed(Signed(time) + o))) - o)) == time
  {
    Shifted(time, o);
    Shifted(Unsigned(time + o), -o);
    ShiftedBack(time, o);
  }

  lemma BackAndThere(time: uint64, o: int)
    ensures Unsigned(Signed(Signed(Unsigned(Signed(Signed(time) - o))) + o)) == time
  {
    Shifted(time, -o);
    Shifted(Unsigned(time - o), o);
    ShiftedBack(time, -o);
  }

  /** Conversions between the two clocks undo each other on every 64-bit value, whatever the offset. */
  lemma MutualInverse(offset: int64, time: uint64)
    ensures ClientTime(offset, HostTime(offset, time)) == time
    ensures HostTime(offset, ClientTime(offset, time)) == time
  {
    ThereAndBack(time, offset);
    BackAndThere(time, offset);
  }

  lemma HalvedNear(n: int)
    ensures -1 <= 2 * Halved(n) - n <= 1
    ensures n % 2 == 0 ==> 2 * Halved(n) == n
  {
  }

  // ---------------------------------------------------------------- accuracy

  /** One exchange: the host clock is the client clock plus `theta`; the request takes `d1`, the host `p`, the
      response `d2`. The four timestamps are those clocks modulo 2^64. */
  datatype Exchange = Exchange(start: nat, theta: int, d1: nat, p: nat, d2: nat)

  function T0(x: Exchange): uint64 { Unsigned(x.start) }
  function T1(x: Exchange): uint64 { Unsigned(x.start + x.d1 + x.theta) }
  function T2(x: Exchange): uint64 { Unsigned(x.start + x.d1 + x.p + x.theta) }
  function T3(x: Exchange): uint64 { Unsigned(x.start + x.d1 + x.p + x.d2) }

  /** The true differences the formulas work with fit 64 signed bits; the clocks themselves may wrap. */
  predicate Representable(x: Exchange) {
    && -HALF <= x.theta + x.d1 < HALF && -HALF <= x.theta - x.d2 < HALF
    && -HALF <= 2 * x.theta + x.d1 - x.d2 < HALF
    && x.d1 + x.p + x.d2 < HALF
  }

  /** Unsigned subtraction of wrapped clocks, read as signed, is their true difference. */
  lemma Difference(a: int, b: int)
    requires -HALF <= a - b < HALF
    ensures Signed(Unsigned(a) - Unsigned(b)) == a - b
  {
    var k := a / RANGE - b / RANGE;
    assert Unsigned(a) - Unsigned(b) == (a - b) - k * RANGE;
    Congruent(a - b, Unsigned(a) - Unsigned(b), k);
    SignedUnique(Unsigned(a) - Unsigned(b), a - b);
  }

  lemma SignedUnique(m: int, n: int)
    requires Unsigned(m) == Unsigned(n) && -HALF <= n < HALF
    ensures Signed(m) == n
  {
    assert Signed(n) == n;
  }

  lemma OffsetOf(t0: uint64, t1: uint64, t2: uint64, t3: uint64, a: int, b: int)
    requires Signed(t1 - t0) == a && Signed(t2 - t3) == b && -HALF <= a + b < HALF
    ensures Offset(t0, t1, t2, t3) == Halved(a + b)
  {
    assert Signed(a + b) == a + b;
  }

  /** The delay is what the client waited less what the host took, and zero when the host claims more. */
  lemma TripOf(t0: uint64, t1: uint64, t2: uint64, t3: uint64, a: int, b: int)
    requires Signed(t3 - t0) == a && Signed(t2 - t1) == b && -HALF <= a - b < HALF
    ensures RoundTripTime(t0, t1, t2, t3) == if b <= a then a - b else 0
  {
    assert Signed(a - b) == a - b;
  }

  /** What the formulas compute, in terms of the exchange. */
  lemma Computed(x: Exchange)
    requires Representable(x)
    ensures Offset(T0(x), T1(x), T2(x), T3(x)) == Halved(2 * x.theta + (x.d1 - x.d2))
    ensures RoundTripTime(T0(x), T1(x), T2(x), T3(x)) == x.d1 + x.d2
  {
    ComputedOffset(x, T0(x), T1(x), T2(x), T3(x));
    ComputedTrip(x, T0(x), T1(x), T2(x), T3(x));
  }

  lemma ComputedOffset(x: Exchange, t0: uint64, t1: uint64, t2: uint64, t3: uint64)
    requires Representable(x) && t0 == T0(x) && t1 == T1(x) && t2 == T2(x) && t3 == T3(x)
    ensures Offset(t0, t1, t2, t3) == Halved(2 * x.theta + (x.d1 - x.d2))
  {
    Difference(x.start + x.d1 + x.theta, x.start);
    Difference(x.start + x.d1 + x.p + x.theta, x.start + x.d1 + x.p + x.d2);
    OffsetOf(t0, t1, t2, t3, x.d1 + x.theta, x.theta - x.d2);
  }

  lemma ComputedTrip(x: Exchange, t0: uint64, t1: uint64, t2: uint64, t3: uint64)
    requires Representable(x) && t0 == T0(x) && t1 == T1(x) && t2 == T2(x) && t3 == T3(x)
    ensures RoundTripTime(t0, t1, t2, t3) == x.d1 + x.d2
  {
    Difference(x.start + x.d1 + x.p + x.d2, x.start);
    Difference(x.start + x.d1 + x.p + x.theta, x.start + x.d1 + x.theta);
    TripOf(t0, t1, t2, t3, x.d1 + x.p + x.d2, x.p);
  }

  /** The error of the offset is at most half the asymmetry of the path, and so half the round trip, up to rounding. */
  lemma OffsetBound(x: Exchange)
    requires Representable(x)
    ensures var error := 2 * Offset(T0(x), T1(x), T2(x), T3(x)) - 2 * x.theta;
      && x.d1 - x.d2 - 1 <= error <= x.d1 - x.d2 + 1
      && -(RoundTripTime(T0(x), T1(x), T2(x), T3(x)) + 1) <= error <= RoundTripTime(T0(x), T1(x), T2(x), T3(x)) + 1
  {
    Computed(x);
    HalvedNear(2 * x.theta + (x.d1 - x.d2));
  }

  /** The offset is exact for symmetric delays, and otherwise only when truncation hides a difference of one. */
  lemma OffsetExact(x: Exchange)
    requires Representable(x)
    ensures Offset(T0(x), T1(x), T2(x), T3(x)) == x.theta <==>
      (x.d1 == x.d2 || (x.d1 == x.d2 + 1 && x.theta >= 0) || (x.d2 == x.d1 + 1 && x.theta <= 0))
  {
    Computed(x);
    HalvedNear(2 * x.theta + (x.d1 - x.d2));
  }

  /** After an exchange, a client time converts to the true host time up to that error, modulo 2^64. */
  lemma HostTimeAccuracy(x: Exchange, clientTime: uint64) returns (e: int)
    requires Representable(x)
    ensures HostTime(Offset(T0(x), T1(x), T2(x), T3(x)), clientTime) == Unsigned(clientTime + x.theta + e)
    ensures x.d1 - x.d2 - 1 <= 2 * e <= x.d1 - x.d2 + 1
  {
    OffsetBound(x);
    var o: int := Offset(T0(x), T1(x), T2(x), T3(x));
    e := o - x.theta;
    Shifted(clientTime, o);
  }
}
