/**
 When the sending end of a file transfer succeeds (node/src/FileTopic.cpp): what its surroundings do,
 point by point, decides each wait, each attempt, each block and the whole sending.
 */
module FileTiming {
  import opened FileTransfer

  /**
   What comes in and goes on around the sender. Every time it lets replies in or puts a message counts
   as one tick: arrivals tells which replies come in at a tick, putOk whether the put at a tick works,
   delay by how many milliseconds the sleep before a tick takes longer than asked for.
   */
  datatype Surroundings = Surroundings(arrivals: nat -> seq<Reply>, putOk: nat -> bool, delay: nat -> nat)

  /** The configured retries and waiting times, in seconds. */
  datatype Timing = Timing(maxRetry: int, blockTimeout: int, blockLastTimeout: int)

  /** How something ended, and the tick after it. */
  datatype Outcome = Outcome(ok: bool, tick: nat)

  // ----- One wait for a reply -----

  /** The milliseconds that have passed at poll j of a wait that begins at tick t. */
  function Elapsed(e: Surroundings, t: nat, j: nat): (ms: nat)
    ensures ms >= 10 * j
  {
    if j == 0 then 0 else Elapsed(e, t, j - 1) + 10 + e.delay(t + j)
  }

  function Rest<T>(q: seq<T>): seq<T> {
    if q == [] then [] else q[1..]
  }

  /** The replies that poll j finds; every poll before took away the oldest. */
  function Found(e: Surroundings, t: nat, queue: seq<Reply>, j: nat): seq<Reply> {
    (if j == 0 then queue else Rest(Found(e, t, queue, j - 1))) + e.arrivals(t + j)
  }

  /** Poll j takes away a reply that names block n. */
  ghost predicate Heard(e: Surroundings, t: nat, queue: seq<Reply>, n: nat, j: nat) {
    var found := Found(e, t, queue, j);
    found != [] && found[0].blockSeq == n
  }

  ghost predicate HeardInTime(e: Surroundings, t: nat, queue: seq<Reply>, n: nat, timeout: int) {
    exists j: nat :: Elapsed(e, t, j) < timeout && Heard(e, t, queue, n, j)
  }

  /** How a wait with this much time left ends, poll by poll. */
  function Wait(e: Surroundings, t: nat, queue: seq<Reply>, n: nat, left: int): Outcome
    decreases left
  {
    var found := queue + e.arrivals(t);
    if left <= 0 then Outcome(false, t)
    else if found != [] && found[0].blockSeq == n then Outcome(true, t + 1)
    else Wait(e, t + 1, Rest(found), n, left - 10 - e.delay(t + 1))
  }

  lemma {:induction false} ElapsedGrows(e: Surroundings, t: nat, i: nat, j: nat)
    requires i <= j
    ensures Elapsed(e, t, i) + 10 * (j - i) <= Elapsed(e, t, j)
  {
    if i < j {
      ElapsedGrows(e, t, i, j - 1);
    }
  }

  lemma {:induction false} ElapsedShifts(e: Surroundings, t: nat, j: nat)
    ensures Elapsed(e, t, j + 1) == 10 + e.delay(t + 1) + Elapsed(e, t + 1, j)
  {
    if j > 0 {
      ElapsedShifts(e, t, j - 1);
    }
  }

  lemma {:induction false} FoundShifts(e: Surroundings, t: nat, queue: seq<Reply>, j: nat)
    ensures Found(e, t, queue, j + 1) == Found(e, t + 1, Rest(queue + e.arrivals(t)), j)
  {
    if j > 0 {
      FoundShifts(e, t, queue, j - 1);
    }
  }

  lemma HeardLater(e: Surroundings, t: nat, queue: seq<Reply>, n: nat, left: int, j: nat)
    requires j > 0 && Elapsed(e, t, j) < left && Heard(e, t, queue, n, j)
    ensures HeardInTime(e, t + 1, Rest(queue + e.arrivals(t)), n, left - 10 - e.delay(t + 1))
  {
    ElapsedShifts(e, t, j - 1);
    FoundShifts(e, t, queue, j - 1);
    assert Heard(e, t + 1, Rest(queue + e.arrivals(t)), n, j - 1);
  }

  lemma HeardEarlier(e: Surroundings, t: nat, queue: seq<Reply>, n: nat, left: int, j: nat)
    requires Elapsed(e, t + 1, j) < left - 10 - e.delay(t + 1)
    requires Heard(e, t + 1, Rest(queue + e.arrivals(t)), n, j)
    ensures HeardInTime(e, t, queue, n, left)
  {
    ElapsedShifts(e, t, j);
    FoundShifts(e, t, queue, j);
    assert Heard(e, t, queue, n, j + 1);
  }

  lemma HeardShifts(e: Surroundings, t: nat, queue: seq<Reply>, n: nat, left: int)
    requires !Heard(e, t, queue, n, 0)
    ensures HeardInTime(e, t, queue, n, left) <==>
            HeardInTime(e, t + 1, Rest(queue + e.arrivals(t)), n, left - 10 - e.delay(t + 1))
  {
    var rest := Rest(queue + e.arrivals(t));
    if HeardInTime(e, t, queue, n, left) {
      var j: nat :| Elapsed(e, t, j) < left && Heard(e, t, queue, n, j);
      HeardLater(e, t, queue, n, left, j);
    } else if HeardInTime(e, t + 1, rest, n, left - 10 - e.delay(t + 1)) {
      var j: nat :| Elapsed(e, t + 1, j) < left - 10 - e.delay(t + 1) && Heard(e, t + 1, rest, n, j);
      HeardEarlier(e, t, queue, n, left, j);
    }
  }

  /** A wait is answered exactly if some poll within the time takes away a reply that names the block. */
  lemma {:induction false} WaitMeans(e: Surroundings, t: nat, queue: seq<Reply>, n: nat, left: int)
    ensures Wait(e, t, queue, n, left).ok <==> HeardInTime(e, t, queue, n, left)
    decreases left
  {
    if left > 0 {
      assert Found(e, t, queue, 0) == queue + e.arrivals(t) && Elapsed(e, t, 0) == 0;
      if !Heard(e, t, queue, n, 0) {
        HeardShifts(e, t, queue, n, left);
        WaitMeans(e, t + 1, Rest(queue + e.arrivals(t)), n, left - 10 - e.delay(t + 1));
      }
    }
  }

  lemma FoundNext(e: Surroundings, t: nat, queue: seq<Reply>, i: nat)
    ensures Found(e, t, queue, i + 1) == Rest(Found(e, t, queue, i)) + e.arrivals(t + i + 1)
  {
  }

  /** Replies are taken first come, first served: the one with j - i others before it at poll i is taken at poll j. */
  lemma {:induction false} ReplyReachesFront(e: Surroundings, t: nat, queue: seq<Reply>, i: nat, j: nat)
    requires i <= j && j - i < |Found(e, t, queue, i)|
    ensures Found(e, t, queue, j) != []
    ensures Found(e, t, queue, j)[0] == Found(e, t, queue, i)[j - i]
    decreases j - i
  {
    if i < j {
      var found, next := Found(e, t, queue, i), Found(e, t, queue, i + 1);
      FoundNext(e, t, queue, i);
      assert next[j - i - 1] == found[1..][j - i - 1] == found[j - i];
      ReplyReachesFront(e, t, queue, i + 1, j);
    }
  }

  /** The reply comes in by poll j. */
  ghost predicate ComesIn(e: Surroundings, t: nat, j: nat, x: Reply) {
    x in e.arrivals(t + j) || (j > 0 && ComesIn(e, t, j - 1, x))
  }

  lemma {:induction false} FoundComesIn(e: Surroundings, t: nat, queue: seq<Reply>, j: nat, x: Reply)
    requires x in Found(e, t, queue, j)
    ensures x in queue || ComesIn(e, t, j, x)
  {
    if j > 0 && x in Rest(Found(e, t, queue, j - 1)) {
      FoundComesIn(e, t, queue, j - 1, x);
    }
  }

  /**
   A reply that is there at poll i behind j - i others is in time if the clock at poll j is, and no
   wait is answered without a reply for its block among those that were there or came in.
   */
  lemma AnsweredWaits(e: Surroundings, t: nat, queue: seq<Reply>, n: nat, timeout: int)
    ensures forall i: nat, j: nat | i <= j && j - i < |Found(e, t, queue, i)| &&
                                    Found(e, t, queue, i)[j - i].blockSeq == n && Elapsed(e, t, j) < timeout ::
              Wait(e, t, queue, n, timeout).ok
    ensures Wait(e, t, queue, n, timeout).ok ==>
              || (exists x :: x in queue && x.blockSeq == n)
              || (exists j: nat, x :: Elapsed(e, t, j) < timeout && ComesIn(e, t, j, x) && x.blockSeq == n)
    ensures timeout <= 0 ==> !Wait(e, t, queue, n, timeout).ok
  {
    WaitMeans(e, t, queue, n, timeout);
    forall i: nat, j: nat | i <= j && j - i < |Found(e, t, queue, i)| &&
                            Found(e, t, queue, i)[j - i].blockSeq == n && Elapsed(e, t, j) < timeout
      ensures Wait(e, t, queue, n, timeout).ok
    {
      ReplyReachesFront(e, t, queue, i, j);
      assert Heard(e, t, queue, n, j);
    }
    if Wait(e, t, queue, n, timeout).ok {
      var j: nat :| Elapsed(e, t, j) < timeout && Heard(e, t, queue, n, j);
      FoundComesIn(e, t, queue, j, Found(e, t, queue, j)[0]);
    }
  }

  lemma {:induction false} ElapsedExactly(e: Surroundings, t: nat, j: nat)
    requires forall i: nat :: e.delay(i) == 0
    ensures Elapsed(e, t, j) == 10 * j
  {
    if j > 0 {
      ElapsedExactly(e, t, j - 1);
    }
  }

  lemma {:induction false} OnlyOneFound(e: Surroundings, t: nat, j: nat, x: Reply, i: nat)
    requires forall m: nat :: e.arrivals(m) == if m == t + j then [x] else []
    ensures Found(e, t, [], i) == if i == j then [x] else []
  {
    if i > 0 {
      OnlyOneFound(e, t, j, x, i - 1);
    }
  }

  /** A single reply, which comes in at poll j, is in time exactly if 10 * j ms are less than the timeout. */
  lemma OneReply(e: Surroundings, t: nat, n: nat, timeout: int, j: nat, x: Reply)
    requires forall i: nat :: e.delay(i) == 0
    requires forall i: nat :: e.arrivals(i) == if i == t + j then [x] else []
    ensures Wait(e, t, [], n, timeout).ok <==> x.blockSeq == n && 10 * j < timeout
  {
    WaitMeans(e, t, [], n, timeout);
    ElapsedExactly(e, t, j);
    OnlyOneFound(e, t, j, x, j);
    assert Heard(e, t, [], n, j) <==> x.blockSeq == n;
    forall i: nat | Heard(e, t, [], n, i) ensures i == j && x.blockSeq == n {
      OnlyOneFound(e, t, j, x, i);
    }
  }

  // ----- One attempt, one block, one file -----

  /**
   An attempt at tick t: the replies that are there are thrown away, others come in before the put,
   and if the put works, a wait begins two ticks later.
   */
  function Attempt(e: Surroundings, t: nat, n: nat, timeout: int): Outcome {
    if e.putOk(t + 1) then Wait(e, t + 2, e.arrivals(t), n, timeout) else Outcome(false, t + 2)
  }

  /** The put works, and a poll in time takes away a reply for the block. */
  ghost predicate Succeeds(e: Surroundings, t: nat, n: nat, timeout: int) {
    e.putOk(t + 1) && HeardInTime(e, t + 2, e.arrivals(t), n, timeout)
  }

  lemma AttemptMeans(e: Surroundings, t: nat, n: nat, timeout: int)
    ensures Attempt(e, t, n, timeout).ok <==> Succeeds(e, t, n, timeout)
  {
    WaitMeans(e, t + 2, e.arrivals(t), n, timeout);
  }

  /** The tick at which attempt r begins, if all before it fail. */
  function AttemptTick(e: Surroundings, t: nat, n: nat, timeout: int, r: nat): nat {
    if r == 0 then t else Attempt(e, AttemptTick(e, t, n, timeout, r - 1), n, timeout).tick
  }

  /** How the attempts at a block end when so many retries are left. */
  function Attempts(e: Surroundings, t: nat, n: nat, timeout: int, left: int): Outcome
    decreases left
  {
    if left < 0 then Outcome(false, t)
    else
      var first := Attempt(e, t, n, timeout);
      if first.ok then first else Attempts(e, first.tick, n, timeout, left - 1)
  }

  /** Some attempt that the retries allow is answered. */
  ghost predicate BlockAnswered(e: Surroundings, t: nat, n: nat, timeout: int, maxRetry: int) {
    exists r: nat :: r <= maxRetry && Succeeds(e, AttemptTick(e, t, n, timeout, r), n, timeout)
  }

  lemma {:induction false} AttemptTickShifts(e: Surroundings, t: nat, n: nat, timeout: int, r: nat)
    ensures AttemptTick(e, t, n, timeout, r + 1) ==
            AttemptTick(e, Attempt(e, t, n, timeout).tick, n, timeout, r)
  {
    if r > 0 {
      AttemptTickShifts(e, t, n, timeout, r - 1);
    }
  }

  lemma BlockAnsweredShifts(e: Surroundings, t: nat, n: nat, timeout: int, maxRetry: int)
    requires !Succeeds(e, t, n, timeout)
    ensures BlockAnswered(e, t, n, timeout, maxRetry) <==>
            BlockAnswered(e, Attempt(e, t, n, timeout).tick, n, timeout, maxRetry - 1)
  {
    var u := Attempt(e, t, n, timeout).tick;
    if BlockAnswered(e, t, n, timeout, maxRetry) {
      var r: nat :| r <= maxRetry && Succeeds(e, AttemptTick(e, t, n, timeout, r), n, timeout);
      assert r > 0;
      AttemptTickShifts(e, t, n, timeout, r - 1);
      assert Succeeds(e, AttemptTick(e, u, n, timeout, r - 1), n, timeout);
    }
    if BlockAnswered(e, u, n, timeout, maxRetry - 1) {
      var r: nat :| r <= maxRetry - 1 && Succeeds(e, AttemptTick(e, u, n, timeout, r), n, timeout);
      AttemptTickShifts(e, t, n, timeout, r);
      assert Succeeds(e, AttemptTick(e, t, n, timeout, r + 1), n, timeout);
    }
  }

  lemma {:induction false} AttemptsMean(e: Surroundings, t: nat, n: nat, timeout: int, maxRetry: int)
    ensures Attempts(e, t, n, timeout, maxRetry).ok <==> BlockAnswered(e, t, n, timeout, maxRetry)
    decreases maxRetry
  {
    if maxRetry >= 0 {
      AttemptMeans(e, t, n, timeout);
      if Succeeds(e, t, n, timeout) {
        assert AttemptTick(e, t, n, timeout, 0) == t;
      } else {
        BlockAnsweredShifts(e, t, n, timeout, maxRetry);
        AttemptsMean(e, Attempt(e, t, n, timeout).tick, n, timeout, maxRetry - 1);
      }
    }
  }

  /** The milliseconds to wait for the reply to block k of n: the longer time is for the last block. */
  function TimeoutOf(g: Timing, n: nat, k: nat): int {
    if k == n - 1 then g.blockLastTimeout * 1000 else g.blockTimeout * 1000
  }

  function Block(e: Surroundings, g: Timing, t: nat, n: nat, k: nat): Outcome {
    Attempts(e, t, k, TimeoutOf(g, n, k), g.maxRetry)
  }

  /** The tick at which block k of n is taken up, if all before it are answered. */
  function BlockTick(e: Surroundings, g: Timing, t: nat, n: nat, k: nat): nat {
    if k == 0 then t else Block(e, g, BlockTick(e, g, t, n, k - 1), n, k - 1).tick
  }

  /** Every one of n blocks is answered, each in its turn. */
  ghost predicate AllAnswered(e: Surroundings, g: Timing, t: nat, n: nat) {
    forall k: nat :: k < n ==> Block(e, g, BlockTick(e, g, t, n, k), n, k).ok
  }

  /** Blocks k, k + 1 and so on up to n are answered, the first of them taken up at tick t. */
  predicate AnsweredFrom(e: Surroundings, g: Timing, t: nat, n: nat, k: nat)
    decreases n - k
  {
    k >= n || (Block(e, g, t, n, k).ok && AnsweredFrom(e, g, Block(e, g, t, n, k).tick, n, k + 1))
  }

  lemma {:induction false} AnsweredFromMeans(e: Surroundings, g: Timing, t: nat, n: nat, k: nat)
    requires forall i: nat :: i < k && i < n ==> Block(e, g, BlockTick(e, g, t, n, i), n, i).ok
    ensures AnsweredFrom(e, g, BlockTick(e, g, t, n, k), n, k) <==> AllAnswered(e, g, t, n)
    decreases n - k
  {
    var b := BlockTick(e, g, t, n, k);
    if k < n && Block(e, g, b, n, k).ok {
      assert BlockTick(e, g, t, n, k + 1) == Block(e, g, b, n, k).tick;
      AnsweredFromMeans(e, g, t, n, k + 1);
    }
  }

  /**
   A block is answered exactly if one of its maxRetry + 1 attempts succeeds in its time, which is
   blockLastTimeout seconds for the last block and blockTimeout for every other.
   */
  lemma BlockMeans(e: Surroundings, g: Timing, t: nat, n: nat, k: nat)
    ensures k + 1 == n ==>
              (Block(e, g, t, n, k).ok <==> BlockAnswered(e, t, k, g.blockLastTimeout * 1000, g.maxRetry))
    ensures k + 1 != n ==>
              (Block(e, g, t, n, k).ok <==> BlockAnswered(e, t, k, g.blockTimeout * 1000, g.maxRetry))
  {
    AttemptsMean(e, t, k, TimeoutOf(g, n, k), g.maxRetry);
  }

  /** What attempts at block k of n come to, at whatever tick they begin. */
  ghost predicate Reachable(e: Surroundings, g: Timing, n: nat, k: nat, t: nat) {
    Succeeds(e, t, k, 1000 * if k + 1 < n then g.blockTimeout else g.blockLastTimeout)
  }

  /** If every attempt at every block would succeed, all blocks are answered, each in its first attempt. */
  lemma PromptRepliesSucceed(e: Surroundings, g: Timing, t: nat, n: nat)
    requires g.maxRetry >= 0
    requires forall k: nat, a: nat :: k < n ==> Reachable(e, g, n, k, a)
    ensures AllAnswered(e, g, t, n)
  {
    forall k: nat | k < n ensures Block(e, g, BlockTick(e, g, t, n, k), n, k).ok {
      var b := BlockTick(e, g, t, n, k);
      assert Reachable(e, g, n, k, b);
      assert AttemptTick(e, b, k, TimeoutOf(g, n, k), 0) == b;
      BlockMeans(e, g, b, n, k);
    }
  }

  /** One block that no attempt gets through is enough for the sending to fail, however often it is tried. */
  lemma OneLostBlockFails(e: Surroundings, g: Timing, t: nat, n: nat, k: nat)
    requires k < n && forall a: nat :: !Reachable(e, g, n, k, a)
    ensures !AllAnswered(e, g, t, n)
  {
    var b := BlockTick(e, g, t, n, k);
    BlockMeans(e, g, b, n, k);
    var timeout := TimeoutOf(g, n, k);
    forall r: nat ensures !Succeeds(e, AttemptTick(e, b, k, timeout, r), k, timeout) {
      assert !Reachable(e, g, n, k, AttemptTick(e, b, k, timeout, r));
    }
  }

  lemma {:induction false} CameIn(e: Surroundings, t: nat, j: nat, x: Reply) returns (a: nat)
    requires ComesIn(e, t, j, x)
    ensures x in e.arrivals(a)
  {
    if x in e.arrivals(t + j) {
      a := t + j;
    } else {
      a := CameIn(e, t, j - 1, x);
    }
  }

  lemma SucceedsByReply(e: Surroundings, t: nat, n: nat, timeout: int)
    requires Succeeds(e, t, n, timeout)
    ensures timeout > 0 && exists a: nat, x :: x in e.arrivals(a) && x.blockSeq == n
  {
    WaitMeans(e, t + 2, e.arrivals(t), n, timeout);
    AnsweredWaits(e, t + 2, e.arrivals(t), n, timeout);
    if x :| x in e.arrivals(t) && x.blockSeq == n {
    } else {
      var j: nat, x :| Elapsed(e, t + 2, j) < timeout && ComesIn(e, t + 2, j, x) && x.blockSeq == n;
      var a := CameIn(e, t + 2, j, x);
    }
  }

  /**
   So a sending needs a first attempt, and for every block k a put that works, time to wait (of its own
   for the last block), and a reply that names it among all that ever come in.
   */
  lemma SendingNeeds(e: Surroundings, g: Timing, t: nat, n: nat, k: nat)
    requires k < n && AllAnswered(e, g, t, n)
    ensures g.maxRetry >= 0
    ensures if k + 1 < n then g.blockTimeout > 0 else g.blockLastTimeout > 0
    ensures exists a: nat :: e.putOk(a)
    ensures exists a: nat, x :: x in e.arrivals(a) && x.blockSeq == k
  {
    if forall a: nat :: !Reachable(e, g, n, k, a) {
      OneLostBlockFails(e, g, t, n, k);
    } else {
      var a: nat :| Reachable(e, g, n, k, a);
      assert e.putOk(a + 1);
      SucceedsByReply(e, a, k, 1000 * if k + 1 < n then g.blockTimeout else g.blockLastTimeout);
      BlockMeans(e, g, BlockTick(e, g, t, n, k), n, k);
    }
  }
}
