/**
 The Snowflake id generator of utils/SnowFlake.h: 42 bits of milliseconds since START_STMP,
 5 bits of datacenter, 5 bits of machine and a 12-bit sequence within one millisecond.

 The POSIX clock is an arbitrary sequence of readings, consumed one by one. Words have 64 bits:
 subtraction and left shift wrap, and the fields are joined by a bitwise or.
 */
module SnowFlake {

  const TWO_64 := 0x1_0000_0000_0000_0000
  const START_STMP: uint64 := 1480166465631
  const MAX_DATACENTER_NUM: uint64 := 31
  const MAX_MACHINE_NUM: uint64 := 31
  const MAX_SEQUENCE_NUM: uint64 := 4095

  /** Offsets below this one keep all their bits in an id. */
  const OFFSET_LIMIT := 0x400_0000_0000

  type uint64 = x: int | 0 <= x < 0x1_0000_0000_0000_0000

  // ----- Words -----

  function Subtract(a: uint64, b: uint64): uint64 {
    (a - b) % TWO_64
  }

  function Pow2(n: nat): nat {
    if n == 0 then 1 else 2 * Pow2(n - 1)
  }

  function ShiftLeft(a: uint64, n: nat): uint64 {
    a * Pow2(n) % TWO_64
  }

  /** Bit by bit. */
  function Or(a: nat, b: nat): nat {
    if a == 0 && b == 0 then 0
    else (if a % 2 == 1 || b % 2 == 1 then 1 else 0) + 2 * Or(a / 2, b / 2)
  }

  /** The four fields of an id, as the source joins them. */
  function Pack(offset: uint64, datacenterId: uint64, machineId: uint64, sequence: uint64): nat {
    Or(Or(Or(ShiftLeft(offset, 22), ShiftLeft(datacenterId, 17)), ShiftLeft(machineId, 12)), sequence)
  }

  lemma {:induction false} OrZero(a: nat)
    ensures Or(a, 0) == a
  {
    if a != 0 {
      OrZero(a / 2);
    }
  }

  /** An or of words without a common bit is a sum. */
  lemma {:induction false} OrOfDisjoint(a: nat, n: nat, b: nat, w: nat, x: nat)
    requires w == Pow2(n) && b < w && x == a * w
    ensures Or(x, b) == x + b
    decreases n
  {
    if n == 0 {
      OrZero(a);
    } else {
      var v := Pow2(n - 1);
      assert x == 2 * (a * v) by {
        assert w == 2 * v;
      }
      OrOfDisjoint(a, n - 1, b / 2, v, a * v);
    }
  }

  lemma OffsetShift(o: uint64, h: nat)
    requires h == o % OFFSET_LIMIT
    ensures o * 4194304 % TWO_64 == 4194304 * h
  {
  }

  lemma Powers()
    ensures Pow2(12) == 4096 && Pow2(17) == 131072 && Pow2(22) == 4194304
  {
  }

  lemma PackOf(o: uint64, d: uint64, m: uint64, q: uint64, x: nat, y: nat, z: nat)
    requires x == o * 4194304 % TWO_64 && y == d * 131072 % TWO_64 && z == m * 4096 % TWO_64
    ensures Pack(o, d, m, q) == Or(Or(Or(x, y), z), q)
  {
    Powers();
  }

  lemma OrDatacenter(h: nat, d: nat)
    requires d <= 31
    ensures Or(4194304 * h, 131072 * d) == 4194304 * h + 131072 * d
  {
    Powers();
    OrOfDisjoint(h, 22, 131072 * d, 4194304, 4194304 * h);
  }

  lemma OrMachine(h: nat, m: nat)
    requires m <= 31
    ensures Or(131072 * h, 4096 * m) == 131072 * h + 4096 * m
  {
    Powers();
    OrOfDisjoint(h, 17, 4096 * m, 131072, 131072 * h);
  }

  lemma OrSequence(h: nat, q: nat)
    requires q <= 4095
    ensures Or(4096 * h, q) == 4096 * h + q
  {
    Powers();
    OrOfDisjoint(h, 12, q, 4096, 4096 * h);
  }

  lemma OrIsSum(h: nat, d: nat, m: nat, q: nat, x: nat, y: nat, z: nat)
    requires d <= 31 && m <= 31 && q <= 4095
    requires x == 4194304 * h && y == 131072 * d && z == 4096 * m
    ensures Or(Or(Or(x, y), z), q) == x + y + z + q
  {
    OrDatacenter(h, d);
    assert x + y == 131072 * (32 * h + d);
    OrMachine(32 * h + d, m);
    assert x + y + z == 4096 * (1024 * h + 32 * d + m);
    OrSequence(1024 * h + 32 * d + m, q);
  }

  /** The four fields lie side by side; only the 42 low bits of the offset are kept. */
  lemma PackIsSum(o: uint64, d: uint64, m: uint64, q: uint64)
    requires d <= 31 && m <= 31 && q <= 4095
    ensures Pack(o, d, m, q) == Joined(o % OFFSET_LIMIT, d, m, q)
  {
    var h := o % OFFSET_LIMIT;
    OffsetShift(o, h);
    PackOf(o, d, m, q, 4194304 * h, 131072 * d, 4096 * m);
    OrIsSum(h, d, m, q, 4194304 * h, 131072 * d, 4096 * m);
  }

  // ----- The generator over values -----

  /** Four fields side by side, the upper one first. */
  function Joined(h: nat, d: nat, m: nat, q: nat): nat {
    4194304 * h + 131072 * d + 4096 * m + q
  }

  /** The generator's fields. */
  datatype State = State(datacenterId: uint64, machineId: uint64, sequence: uint64, lastStmp: uint64)

  predicate ValidState(s: State) {
    s.datacenterId <= 31 && s.machineId <= 31 && s.sequence <= 4095
  }

  function Fresh(datacenterId: uint64, machineId: uint64): State {
    State(datacenterId, machineId, 0, 0)
  }

  function IdOf(s: State): nat {
    Joined(Subtract(s.lastStmp, START_STMP) % OFFSET_LIMIT, s.datacenterId, s.machineId, s.sequence)
  }

  /** What one call does: an id, the process ends, or it is still waiting for the clock. */
  datatype Outcome = Id(id: nat) | ClockMovedBackwards | Waiting

  datatype Step = Step(state: State, outcome: Outcome, readings: seq<uint64>)

  /** The readings from the first one after `last` on. */
  function SpinPast(last: uint64, readings: seq<uint64>): (rest: seq<uint64>)
    ensures |rest| <= |readings|
  {
    if readings == [] || readings[0] > last then readings else SpinPast(last, readings[1..])
  }

  function NextId(s: State, readings: seq<uint64>): Step {
    if readings == [] then Step(s, Waiting, [])
    else if readings[0] < s.lastStmp then Step(s, ClockMovedBackwards, readings[1..])
    else if readings[0] > s.lastStmp then
      var t := s.(sequence := 0, lastStmp := readings[0]);
      Step(t, Id(IdOf(t)), readings[1..])
    else
      var sequence := (s.sequence + 1) % (MAX_SEQUENCE_NUM + 1);
      if sequence != 0 then
        var t := s.(sequence := sequence);
        Step(t, Id(IdOf(t)), readings[1..])
      else
        var rest := SpinPast(s.lastStmp, readings[1..]);
        if rest == [] then Step(s.(sequence := 0), Waiting, [])
        else
          var t := s.(sequence := 0, lastStmp := rest[0]);
          Step(t, Id(IdOf(t)), rest[1..])
  }

  /** All ids that a generator returns while the clock shows `readings`. */
  function Run(s: State, readings: seq<uint64>): seq<nat>
    decreases |readings|
  {
    if readings == [] then []
    else
      var step := NextId(s, readings);
      if step.outcome.Id? then [step.outcome.id] + Run(step.state, step.readings) else []
  }

  // ----- The fields of an id -----

  /** The id carries the state it was made from; shifts and masks are quotients and remainders. */
  lemma IdDecodes(s: State)
    requires ValidState(s)
    ensures IdOf(s) / 4194304 == Subtract(s.lastStmp, START_STMP) % OFFSET_LIMIT
    ensures IdOf(s) / 131072 % 32 == s.datacenterId
    ensures IdOf(s) / 4096 % 32 == s.machineId
    ensures IdOf(s) % 4096 == s.sequence
    ensures IdOf(s) < TWO_64
  {
    Fields(Subtract(s.lastStmp, START_STMP) % OFFSET_LIMIT, s.datacenterId, s.machineId, s.sequence, IdOf(s));
  }

  lemma Fields(h: nat, d: nat, m: nat, q: nat, id: nat)
    requires d <= 31 && m <= 31 && q <= 4095 && h < OFFSET_LIMIT
    requires id == 4194304 * h + 131072 * d + 4096 * m + q
    ensures id / 4194304 == h && id / 131072 % 32 == d && id / 4096 % 32 == m && id % 4096 == q
    ensures id < TWO_64
  {
    assert id / 131072 == 32 * h + d;
    assert id / 4096 == 1024 * h + 32 * d + m;
  }

  // ----- One call -----

  lemma {:induction false} SpinPastFinds(last: uint64, readings: seq<uint64>)
    ensures var rest := SpinPast(last, readings);
            && rest == readings[|readings| - |rest|..]
            && (rest != [] ==> rest[0] > last)
  {
    if readings != [] && readings[0] <= last {
      SpinPastFinds(last, readings[1..]);
    }
  }

  /** `t` is a later moment of the generator `s`. */
  predicate Later(s: State, t: State) {
    && t.datacenterId == s.datacenterId && t.machineId == s.machineId
    && (s.lastStmp < t.lastStmp || (s.lastStmp == t.lastStmp && s.sequence < t.sequence))
  }

  lemma NextIdAdvances(s: State, readings: seq<uint64>)
    requires ValidState(s) && NextId(s, readings).outcome.Id?
    ensures var step := NextId(s, readings);
            && ValidState(step.state) && Later(s, step.state)
            && step.outcome.id == IdOf(step.state)
            && step.state.lastStmp in readings + [s.lastStmp]
            && step.readings == readings[|readings| - |step.readings|..]
            && |step.readings| < |readings|
  {
    if readings[0] == s.lastStmp {
      var rest := SpinPast(s.lastStmp, readings[1..]);
      SpinPastFinds(s.lastStmp, readings[1..]);
      assert rest != [] ==> rest[0] in readings[1..];
    }
  }

  /** A call finds the clock behind, or has to wait for a later reading than there are. */
  lemma WhenNoId(s: State, readings: seq<uint64>)
    requires ValidState(s)
    ensures NextId(s, readings).outcome == ClockMovedBackwards <==> readings != [] && readings[0] < s.lastStmp
    ensures NextId(s, readings).outcome == Waiting <==>
            readings == []
            || (readings[0] == s.lastStmp && s.sequence == 4095 && forall r :: r in readings ==> r <= s.lastStmp)
    ensures !NextId(s, readings).outcome.Id? ==>
              NextId(s, readings).state.(sequence := s.sequence) == s && Run(s, readings) == []
  {
    if readings != [] {
      NoneLater(s.lastStmp, readings);
      SpinPastStops(s.lastStmp, readings[1..]);
    }
  }

  lemma NoneLater(last: uint64, readings: seq<uint64>)
    requires readings != []
    ensures (forall r :: r in readings ==> r <= last) <==>
            readings[0] <= last && forall r :: r in readings[1..] ==> r <= last
  {
    assert readings == [readings[0]] + readings[1..];
    assert readings[0] in readings;
    forall r | r in readings[1..] ensures r in readings {
    }
  }

  lemma {:induction false} SpinPastStops(last: uint64, readings: seq<uint64>)
    ensures SpinPast(last, readings) == [] <==> forall r :: r in readings ==> r <= last
  {
    if readings != [] {
      NoneLater(last, readings);
      SpinPastStops(last, readings[1..]);
    }
  }

  lemma {:induction false} SpinPastSkips(last: uint64, readings: seq<uint64>, i: nat)
    requires i < |readings| && readings[i] > last && forall k :: 0 <= k < i ==> readings[k] <= last
    ensures SpinPast(last, readings) == readings[i..]
  {
    if i > 0 {
      SpinPastSkips(last, readings[1..], i - 1);
      assert readings[1..][i - 1..] == readings[i..];
    }
  }

  /**
   Reading i serves the call: the first reading, unless the millisecond of the last id is used up and
   the clock still shows it; then the first later one.
   */
  ghost predicate Serves(s: State, readings: seq<uint64>, i: nat) {
    && i < |readings| && readings[0] >= s.lastStmp
    && if readings[0] == s.lastStmp && s.sequence == 4095
       then readings[i] > s.lastStmp && forall k :: 0 <= k < i ==> readings[k] <= s.lastStmp
       else i == 0
  }

  /** An id made by reading i has the next number within its millisecond, from 0 on. */
  lemma WhatACallGives(s: State, readings: seq<uint64>, i: nat)
    requires ValidState(s) && Serves(s, readings, i)
    ensures var sequence := if readings[i] == s.lastStmp then s.sequence + 1 else 0;
            var t := State(s.datacenterId, s.machineId, sequence, readings[i]);
            NextId(s, readings) == Step(t, Id(IdOf(t)), readings[i + 1..])
  {
    if readings[0] == s.lastStmp && s.sequence == 4095 {
      assert (s.sequence + 1) % (MAX_SEQUENCE_NUM + 1) == 0;
      assert i > 0;
      forall k | 0 <= k < i - 1 ensures readings[1..][k] <= s.lastStmp {
        assert readings[1..][k] == readings[k + 1];
      }
      SpinPastSkips(s.lastStmp, readings[1..], i - 1);
      assert readings[1..][i - 1..] == readings[i..];
    }
  }

  // ----- Many calls in one millisecond -----

  function Repeat(r: uint64, n: nat): seq<uint64> {
    if n == 0 then [] else [r] + Repeat(r, n - 1)
  }

  function Consecutive(id: nat, n: nat): seq<nat>
    decreases n
  {
    if n == 0 then [] else [id] + Consecutive(id + 1, n - 1)
  }

  lemma RunOfServed(s: State, readings: seq<uint64>, i: nat, t: State)
    requires ValidState(s) && Serves(s, readings, i)
    requires t.sequence == if readings[i] == s.lastStmp then s.sequence + 1 else 0
    requires t == State(s.datacenterId, s.machineId, t.sequence, readings[i])
    ensures Run(s, readings) == [IdOf(t)] + Run(t, readings[i + 1..])
  {
    WhatACallGives(s, readings, i);
  }

  /** Calls in the millisecond of the last id give the following ids. */
  lemma {:induction false} SameMillisecond(s: State, id: nat, n: nat, tail: seq<uint64>, u: State)
    requires ValidState(s) && s.sequence + n <= 4095 && id == IdOf(s)
    requires u == s.(sequence := s.sequence + n)
    ensures Run(s, Repeat(s.lastStmp, n) + tail) == Consecutive(id + 1, n) + Run(u, tail)
    decreases n
  {
    if n == 0 {
      assert Repeat(s.lastStmp, 0) + tail == tail;
      assert u == s && Consecutive(id + 1, 0) + Run(s, tail) == Run(s, tail);
    } else {
      var t := s.(sequence := s.sequence + 1);
      FollowingId(s, t);
      OneOfMany(s.lastStmp, n, tail);
      RunOfServed(s, Repeat(s.lastStmp, n) + tail, 0, t);
      SameMillisecond(t, id + 1, n - 1, tail, u);
      OneMoreId(id + 1, n, Run(t, Repeat(s.lastStmp, n - 1) + tail), Run(u, tail));
    }
  }

  lemma FollowingId(s: State, t: State)
    requires ValidState(s) && s.sequence < 4095 && t == s.(sequence := s.sequence + 1)
    ensures ValidState(t) && IdOf(t) == IdOf(s) + 1
  {
  }

  lemma OneOfMany(r: uint64, n: nat, tail: seq<uint64>)
    requires n > 0
    ensures var readings := Repeat(r, n) + tail;
            readings != [] && readings[0] == r && readings[1..] == Repeat(r, n - 1) + tail
  {
    assert Repeat(r, n)[1..] == Repeat(r, n - 1);
  }

  lemma OneMoreId(id: nat, n: nat, ids: seq<nat>, later: seq<nat>)
    requires n > 0 && ids == Consecutive(id + 1, n - 1) + later
    ensures [id] + ids == Consecutive(id, n) + later
  {
  }

  /**
   A new generator gives up to 4096 ids while the clock shows one millisecond, numbered from 0 without
   a gap. The call after that lets all readings of this millisecond pass and takes the first later one.
   */
  lemma OneMillisecond(datacenterId: uint64, machineId: uint64, t: uint64, n: nat, k: nat, u: uint64,
                       tail: seq<uint64>)
    requires datacenterId <= 31 && machineId <= 31 && 0 < t < u && 0 < n <= 4096 && 0 < k
    ensures var first := State(datacenterId, machineId, 0, t);
            var next := State(datacenterId, machineId, 0, u);
            && Run(Fresh(datacenterId, machineId), Repeat(t, n)) == Consecutive(IdOf(first), n)
            && Run(Fresh(datacenterId, machineId), Repeat(t, 4096) + (Repeat(t, k) + ([u] + tail))) ==
               Consecutive(IdOf(first), 4096) + ([IdOf(next)] + Run(next, tail))
  {
    var first := State(datacenterId, machineId, 0, t);
    NewMillisecond(datacenterId, machineId, t, n, []);
    assert Repeat(t, n) + [] == Repeat(t, n);
    assert Consecutive(IdOf(first), n) + [] == Consecutive(IdOf(first), n);
    NewMillisecond(datacenterId, machineId, t, 4096, Repeat(t, k) + ([u] + tail));
    AfterTheLast(datacenterId, machineId, t, k, u, tail);
  }

  /** With all 4096 numbers used, the readings of this millisecond are passed over. */
  lemma AfterTheLast(datacenterId: uint64, machineId: uint64, t: uint64, k: nat, u: uint64, tail: seq<uint64>)
    requires datacenterId <= 31 && machineId <= 31 && t < u && 0 < k
    ensures var next := State(datacenterId, machineId, 0, u);
            Run(State(datacenterId, machineId, 4095, t), Repeat(t, k) + ([u] + tail)) == [IdOf(next)] + Run(next, tail)
  {
    var rest := Repeat(t, k) + ([u] + tail);
    Repeated(t, k);
    assert rest[k] == u && rest[k + 1..] == tail;
    var full := State(datacenterId, machineId, 4095, t);
    assert Serves(full, rest, k);
    RunOfServed(full, rest, k, State(datacenterId, machineId, 0, u));
  }

  lemma {:induction false} Repeated(r: uint64, n: nat)
    ensures |Repeat(r, n)| == n && forall k :: 0 <= k < n ==> Repeat(r, n)[k] == r
  {
    if n > 0 {
      Repeated(r, n - 1);
    }
  }

  lemma NewMillisecond(datacenterId: uint64, machineId: uint64, t: uint64, n: nat, tail: seq<uint64>)
    requires datacenterId <= 31 && machineId <= 31 && 0 < t && 0 < n <= 4096
    ensures var first := State(datacenterId, machineId, 0, t);
            Run(Fresh(datacenterId, machineId), Repeat(t, n) + tail) ==
            Consecutive(IdOf(first), n) + Run(first.(sequence := n - 1), tail)
  {
    var first := State(datacenterId, machineId, 0, t);
    var readings := Repeat(t, n) + tail;
    OneOfMany(t, n, tail);
    RunOfServed(Fresh(datacenterId, machineId), readings, 0, first);
    SameMillisecond(first, IdOf(first), n - 1, tail, first.(sequence := n - 1));
    OneMoreId(IdOf(first), n, Run(first, readings[1..]), Run(first.(sequence := n - 1), tail));
  }

  // ----- Whole runs -----

  /** Ids keep the low 42 bits of the time since START_STMP; windows are the times that agree in the others. */
  function Window(stmp: int): int {
    (stmp - START_STMP) / OFFSET_LIMIT
  }

  predicate InRange(stmp: uint64) {
    START_STMP <= stmp < START_STMP + OFFSET_LIMIT
  }

  ghost predicate AllInWindow(readings: seq<uint64>, w: int) {
    forall r :: r in readings ==> Window(r) == w
  }

  ghost predicate Increasing(ids: seq<nat>) {
    forall i, j :: 0 <= i < j < |ids| ==> ids[i] < ids[j]
  }

  lemma IncreasingCons(id: nat, ids: seq<nat>)
    requires Increasing(ids) && forall x :: x in ids ==> id < x
    ensures Increasing([id] + ids)
  {
    forall i, j | 0 <= i < j < 1 + |ids|
      ensures ([id] + ids)[i] < ([id] + ids)[j]
    {
      assert ([id] + ids)[j] == ids[j - 1] && ids[j - 1] in ids;
      if i > 0 {
        assert ([id] + ids)[i] == ids[i - 1];
      }
    }
  }

  /** Inside one window the offsets are the distances from its start. */
  lemma OffsetInWindow(stmp: uint64, w: int)
    requires Window(stmp) == w
    ensures Subtract(stmp, START_STMP) % OFFSET_LIMIT == stmp - START_STMP - w * OFFSET_LIMIT
  {
    assert TWO_64 == 4194304 * OFFSET_LIMIT;
  }

  lemma LaterIdIsLarger(s: State, t: State, w: int)
    requires ValidState(s) && ValidState(t) && Later(s, t)
    requires Window(s.lastStmp) == w && Window(t.lastStmp) == w
    ensures IdOf(s) < IdOf(t)
  {
    OffsetInWindow(s.lastStmp, w);
    OffsetInWindow(t.lastStmp, w);
  }

  lemma {:induction false} RunFrom(s: State, readings: seq<uint64>, w: int)
    requires ValidState(s) && Window(s.lastStmp) == w && AllInWindow(readings, w)
    ensures Increasing(Run(s, readings))
    ensures forall id :: id in Run(s, readings) ==> IdOf(s) < id
    decreases |readings|
  {
    if readings != [] && NextId(s, readings).outcome.Id? {
      var step := NextId(s, readings);
      NextIdAdvances(s, readings);
      LaterIdIsLarger(s, step.state, w);
      RunFrom(step.state, step.readings, w);
      IncreasingCons(step.outcome.id, Run(step.state, step.readings));
    }
  }

  /** While the clock stays inside one window, wherever that is, a generator's ids strictly increase. */
  lemma IdsStrictlyIncrease(datacenterId: uint64, machineId: uint64, readings: seq<uint64>, w: int)
    requires datacenterId <= 31 && machineId <= 31 && AllInWindow(readings, w)
    ensures Increasing(Run(Fresh(datacenterId, machineId), readings))
  {
    var s := Fresh(datacenterId, machineId);
    if readings != [] && NextId(s, readings).outcome.Id? {
      var step := NextId(s, readings);
      NextIdAdvances(s, readings);
      assert readings[0] in readings && step.state.lastStmp in readings;
      RunFrom(step.state, step.readings, w);
      IncreasingCons(step.outcome.id, Run(step.state, step.readings));
    }
  }

  /** From the last moment of a window to the first of the next, the id falls. */
  lemma IdsFallAtABoundary(datacenterId: uint64, machineId: uint64, w: int, last: uint64, next: uint64)
    requires datacenterId <= 31 && machineId <= 31 && 0 < last && next == last + 1
    requires next == START_STMP + w * OFFSET_LIMIT
    ensures !Increasing(Run(Fresh(datacenterId, machineId), [last, next]))
  {
    var s := Fresh(datacenterId, machineId);
    var t, u := s.(lastStmp := last), s.(lastStmp := next);
    assert [last, next][1..] == [next];
    assert NextId(s, [last, next]) == Step(t, Id(IdOf(t)), [next]);
    assert NextId(t, [next]) == Step(u, Id(IdOf(u)), []);
    assert Run(t, [next]) == [IdOf(u)];
    var ids := Run(s, [last, next]);
    assert ids == [IdOf(t), IdOf(u)];
    OffsetInWindow(last, w - 1);
    OffsetInWindow(next, w);
    assert ids[0] > ids[1];
  }

  ghost predicate Between(readings: seq<uint64>, lo: uint64, hi: uint64) {
    forall r :: r in readings ==> lo <= r <= hi
  }

  lemma WindowsAreOrdered(a: int, b: int, c: int)
    requires a <= b <= c
    ensures Window(a) <= Window(b) <= Window(c)
  {
  }

  lemma BoundaryBetween(lo: uint64, hi: uint64) returns (last: uint64, next: uint64)
    requires lo <= hi && Window(lo) < Window(hi)
    ensures lo <= last && 0 < last && next == last + 1 && next <= hi
    ensures next == START_STMP + Window(hi) * OFFSET_LIMIT
  {
    var w := Window(hi);
    assert START_STMP + w * OFFSET_LIMIT <= hi;
    assert lo < START_STMP + w * OFFSET_LIMIT;
    next := START_STMP + w * OFFSET_LIMIT;
    last := next - 1;
  }

  /**
   For readings between two bounds the ids of a generator increase, in whatever order the clock shows
   them, exactly if the bounds lie in one window.
   */
  lemma WhenIdsIncrease(datacenterId: uint64, machineId: uint64, lo: uint64, hi: uint64)
    requires datacenterId <= 31 && machineId <= 31 && lo <= hi
    ensures (forall readings :: Between(readings, lo, hi) ==> Increasing(Run(Fresh(datacenterId, machineId), readings)))
            <==> Window(lo) == Window(hi)
  {
    if Window(lo) == Window(hi) {
      forall readings | Between(readings, lo, hi)
        ensures Increasing(Run(Fresh(datacenterId, machineId), readings))
      {
        forall r | r in readings ensures Window(r) == Window(lo) {
          WindowsAreOrdered(lo, r, hi);
        }
        IdsStrictlyIncrease(datacenterId, machineId, readings, Window(lo));
      }
    } else {
      WindowsAreOrdered(lo, lo, hi);
      var last, next := BoundaryBetween(lo, hi);
      IdsFallAtABoundary(datacenterId, machineId, Window(hi), last, next);
      assert Between([last, next], lo, hi);
    }
  }

  /** Every id of a run names the generator's datacenter and machine, whatever the clock shows. */
  lemma {:induction false} IdsNameTheirGenerator(s: State, readings: seq<uint64>)
    requires ValidState(s)
    ensures forall id :: id in Run(s, readings) ==>
              id / 131072 % 32 == s.datacenterId && id / 4096 % 32 == s.machineId
    decreases |readings|
  {
    if readings != [] && NextId(s, readings).outcome.Id? {
      var step := NextId(s, readings);
      NextIdAdvances(s, readings);
      IdDecodes(step.state);
      IdsNameTheirGenerator(step.state, step.readings);
    }
  }

  /** Generators with different datacenters or machines never share an id. */
  lemma GeneratorsNeverCollide(s: State, t: State, readings1: seq<uint64>, readings2: seq<uint64>)
    requires ValidState(s) && ValidState(t)
    requires s.datacenterId != t.datacenterId || s.machineId != t.machineId
    ensures forall id :: id in Run(s, readings1) ==> id !in Run(t, readings2)
  {
    IdsNameTheirGenerator(s, readings1);
    IdsNameTheirGenerator(t, readings2);
  }

  lemma BelowTheSignBit(id: nat, h: nat)
    requires h == id / 4194304 && h < OFFSET_LIMIT / 2
    ensures id < TWO_64 / 2
  {
  }

  lemma IdTellsTime(s: State)
    requires ValidState(s) && InRange(s.lastStmp)
    ensures IdOf(s) / 4194304 + START_STMP == s.lastStmp
    ensures s.lastStmp < START_STMP + OFFSET_LIMIT / 2 ==> IdOf(s) < TWO_64 / 2
  {
    var h := s.lastStmp - START_STMP;
    IdDecodes(s);
    OffsetInWindow(s.lastStmp, 0);
    if h < OFFSET_LIMIT / 2 {
      BelowTheSignBit(IdOf(s), h);
    }
  }

  /** The time in an id is a clock reading, and below an offset of 2^41 the id fits a signed word. */
  lemma {:induction false} IdsTellTheTime(s: State, readings: seq<uint64>, all: set<uint64>)
    requires ValidState(s) && (forall r :: r in readings ==> r in all) && (s.lastStmp == 0 || s.lastStmp in all)
    requires forall r :: r in all ==> InRange(r)
    ensures forall id :: id in Run(s, readings) ==>
              id / 4194304 + 1480166465631 in all
              && (id / 4194304 < 2199023255552 ==> id < 9223372036854775808)
    decreases |readings|
  {
    if readings != [] && NextId(s, readings).outcome.Id? {
      var step := NextId(s, readings);
      NextIdAdvances(s, readings);
      assert InRange(readings[0]);
      IdTellsTime(step.state);
      IdsTellTheTime(step.state, step.readings, all);
    }
  }

  // ----- The generator -----

  /** gettimeofday in milliseconds: a script of readings; none are left when observation ends. */
  class Clock {
    var readings: seq<uint64>

    constructor (readings: seq<uint64>)
      ensures this.readings == readings
    {
      this.readings := readings;
    }

    method GetNewStmp() returns (stmp: uint64)
      requires readings != []
      modifies this
      ensures stmp == old(readings[0]) && readings == old(readings[1..])
    {
      stmp := readings[0];
      readings := readings[1..];
    }
  }

  class Generator {
    const datacenterId: uint64
    const machineId: uint64
    const clock: Clock
    var sequence: uint64
    var lastStmp: uint64

    function View(): State
      reads this
    {
      State(datacenterId, machineId, sequence, lastStmp)
    }

    constructor (datacenterId: uint64, machineId: uint64, clock: Clock)
      requires datacenterId <= MAX_DATACENTER_NUM && machineId <= MAX_MACHINE_NUM
      ensures View() == Fresh(datacenterId, machineId) && ValidState(View()) && this.clock == clock
    {
      this.datacenterId := datacenterId;
      this.machineId := machineId;
      this.clock := clock;
      sequence := 0;
      lastStmp := 0;
    }

    /** The checks before construction; null stands for the process ending. */
    static method Create(datacenterId: int, machineId: int, clock: Clock) returns (g: Generator?)
      ensures g == null <==> !(0 <= datacenterId <= 31 && 0 <= machineId <= 31)
      ensures g != null ==>
                fresh(g) && g.View() == Fresh(datacenterId, machineId) && ValidState(g.View()) && g.clock == clock
    {
      if datacenterId > MAX_DATACENTER_NUM || datacenterId < 0 {
        return null;
      }
      if machineId > MAX_MACHINE_NUM || machineId < 0 {
        return null;
      }
      g := new Generator(datacenterId, machineId, clock);
    }

    method GetNextMill() returns (found: bool, mill: uint64)
      modifies clock
      ensures var rest := SpinPast(lastStmp, old(clock.readings));
              && found == (rest != [])
              && clock.readings == (if found then rest[1..] else [])
              && (found ==> mill == rest[0])
    {
      found, mill := false, 0;
      while clock.readings != []
        invariant SpinPast(lastStmp, clock.readings) == SpinPast(lastStmp, old(clock.readings))
        decreases |clock.readings|
      {
        mill := clock.GetNewStmp();
        if mill > lastStmp {
          return true, mill;
        }
      }
    }

    method GenerateId() returns (outcome: Outcome)
      requires ValidState(View())
      modifies this`sequence, this`lastStmp, clock
      ensures ValidState(View())
      ensures Step(View(), outcome, clock.readings) == NextId(old(View()), old(clock.readings))
    {
      if clock.readings == [] {
        return Waiting;
      }
      var currStmp := clock.GetNewStmp();
      if currStmp < lastStmp {
        return ClockMovedBackwards;
      }
      if currStmp == lastStmp {
        sequence := (sequence + 1) % (MAX_SEQUENCE_NUM + 1);
        if sequence == 0 {
          var found;
          found, currStmp := GetNextMill();
          if !found {
            return Waiting;
          }
        }
      } else {
        sequence := 0;
      }
      lastStmp := currStmp;
      PackIsSum(Subtract(currStmp, START_STMP), datacenterId, machineId, sequence);
      return Id(Pack(Subtract(currStmp, START_STMP), datacenterId, machineId, sequence));
    }
  }
}
