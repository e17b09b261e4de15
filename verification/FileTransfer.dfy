/**
 The block transfer protocol of node/src/FileTopic.cpp as a state machine: a stop-and-wait sender
 with bounded retries, a receiver that stores blocks and merges them when the last one comes in,
 and between them a network that may lose, repeat and reorder blocks and replies.
 */
module FileTransfer {
  import opened Collections
  import opened FileSplit

  // States of a reply
  const TRANSFERRING := 1
  const RESEND_ALL := 4
  const RECEIVED := 5

  datatype FileData = FileData(blockSeq: nat, totalNum: nat, isEnd: bool, totalSize: nat, content: Bytes)

  datatype Reply = Reply(blockSeq: nat, state: nat, isEnd: bool)

  // ----- The receiver -----

  /** The temporary store, the replies waiting to be sent, and the files moved out, newest last. */
  datatype Receiver = Receiver(store: map<nat, Bytes>, replies: seq<Reply>, delivered: seq<Bytes>)

  function HandleFileData(r: Receiver, d: FileData): Receiver {
    var store := r.store[d.blockSeq := d.content];
    if !d.isEnd then
      Receiver(store, r.replies + [Reply(d.blockSeq, TRANSFERRING, false)], r.delivered)
    else
      var m := MergeFiles(store, d.totalNum);
      if m.code == 0 && |m.out| == d.totalSize then
        Receiver(map[], r.replies + [Reply(d.blockSeq, RECEIVED, true)], r.delivered + [m.out])
      else if m.code >= 0 then
        r.(store := store)
      else
        Receiver(store, r.replies + [Reply(d.blockSeq, RESEND_ALL, true)], r.delivered)
  }

  // ----- The sender -----

  /** The blocks to send, and how often a block may be sent again. */
  datatype Transfer = Transfer(blocks: seq<Bytes>, maxRetry: int) {
    function Message(i: nat): FileData
      requires i < |blocks|
    {
      FileData(i, |blocks|, i == |blocks| - 1, |Flatten(blocks)|, blocks[i])
    }
  }

  datatype Phase = Ready | Cleared | Waiting | Finished(result: bool)

  /** Sending block k for the time number retry + 1. */
  datatype Sender = Sender(k: nat, retry: nat, phase: Phase, queue: seq<Reply>)

  datatype SenderAction = Arrive(reply: Reply) | Clear | Publish(ok: bool) | Poll | Timeout

  /** Block k is taken up; an empty block ends the sending at once, with the result true. */
  function EnterBlock(c: Transfer, k: nat, queue: seq<Reply>): Sender
    requires k < |c.blocks|
  {
    Sender(k, 0, if c.blocks[k] == [] then Finished(true) else if c.maxRetry < 0 then Finished(false) else Ready, queue)
  }

  function Start(c: Transfer, queue: seq<Reply>): Sender {
    if c.blocks == [] then Sender(0, 0, Finished(false), queue) else EnterBlock(c, 0, queue)
  }

  function Retried(c: Transfer, s: Sender): Sender {
    if s.retry + 1 <= c.maxRetry then s.(retry := s.retry + 1, phase := Ready) else s.(phase := Finished(false))
  }

  function Answered(c: Transfer, s: Sender): Sender
    requires s.k < |c.blocks|
  {
    if s.k == |c.blocks| - 1 then s.(phase := Finished(true)) else EnterBlock(c, s.k + 1, s.queue)
  }

  /** One step of the sender, if it is possible. */
  function SenderStep(c: Transfer, s: Sender, a: SenderAction): Option<Sender> {
    match a
    case Arrive(reply) => Some(s.(queue := s.queue + [reply]))
    case Clear => if s.phase.Ready? then Some(s.(phase := Cleared, queue := [])) else None
    case Publish(ok) =>
      if !s.phase.Cleared? || s.k >= |c.blocks| then None
      else if ok then Some(s.(phase := Waiting))
      else Some(Retried(c, s))
    case Poll =>
      if !s.phase.Waiting? || s.k >= |c.blocks| then None
      else if s.queue == [] then Some(s)
      else
        var rest := s.(queue := s.queue[1..]);
        Some(if s.queue[0].blockSeq == s.k then Answered(c, rest) else rest)
    case Timeout => if s.phase.Waiting? then Some(Retried(c, s)) else None
  }

  function SenderRun(c: Transfer, s: Sender, acts: seq<SenderAction>): Option<Sender>
    decreases |acts|
  {
    if acts == [] then Some(s) else
      match SenderStep(c, s, acts[0])
      case None => None
      case Some(t) => SenderRun(c, t, acts[1..])
  }

  /** The block numbers given to the publisher in a run, in order. */
  function Published(c: Transfer, s: Sender, acts: seq<SenderAction>): seq<nat>
    decreases |acts|
  {
    if acts == [] then [] else
      match SenderStep(c, s, acts[0])
      case None => []
      case Some(t) => (if acts[0].Publish? then [s.k] else []) + Published(c, t, acts[1..])
  }

  lemma {:induction false} RunAppend(c: Transfer, s: Sender, a: seq<SenderAction>, t: Sender, b: seq<SenderAction>)
    requires SenderRun(c, s, a) == Some(t)
    ensures SenderRun(c, s, a + b) == SenderRun(c, t, b)
    ensures Published(c, s, a + b) == Published(c, s, a) + Published(c, t, b)
    decreases |a|
  {
    if a == [] {
      assert a + b == b;
    } else {
      assert (a + b)[1..] == a[1..] + b && (a + b)[0] == a[0];
      RunAppend(c, SenderStep(c, s, a[0]).value, a[1..], t, b);
    }
  }

  // ----- How often and in which order blocks are published -----

  function Count(xs: seq<nat>, x: nat): nat {
    if xs == [] then 0 else (if xs[0] == x then 1 else 0) + Count(xs[1..], x)
  }

  ghost predicate Sorted(xs: seq<nat>) {
    forall i, j :: 0 <= i < j < |xs| ==> xs[i] <= xs[j]
  }

  /** How often block i may still be published from s on. */
  function Allowed(c: Transfer, s: Sender, i: nat): int {
    if s.phase.Finished? || i < s.k then 0
    else if i > s.k then c.maxRetry + 1
    else c.maxRetry + 1 - s.retry - if s.phase.Waiting? then 1 else 0
  }

  ghost predicate SenderOk(c: Transfer, s: Sender) {
    s.phase.Finished? || (s.k < |c.blocks| && s.retry <= c.maxRetry)
  }

  lemma AllowedStep(c: Transfer, s: Sender, a: SenderAction, t: Sender, i: nat)
    requires SenderOk(c, s) && SenderStep(c, s, a) == Some(t)
    ensures SenderOk(c, t) && s.k <= t.k
    ensures a.Publish? ==> s.k < |c.blocks|
    ensures Allowed(c, t, i) + (if a.Publish? && i == s.k then 1 else 0) <= Allowed(c, s, i)
  {
  }

  lemma SortedStep(x: nat, xs: seq<nat>)
    requires Sorted(xs) && forall y :: y in xs ==> x <= y
    ensures Sorted([x] + xs)
  {
    var ys := [x] + xs;
    forall i, j | 0 <= i < j < |ys| ensures ys[i] <= ys[j] {
      assert ys[j] == xs[j - 1] && xs[j - 1] in xs;
      if i > 0 {
        assert ys[i] == xs[i - 1];
      }
    }
  }

  /** Each block is published at most maxRetry + 1 times, in the order of the blocks. */
  lemma {:induction false} PublishedIsBounded(c: Transfer, s: Sender, acts: seq<SenderAction>, i: nat)
    requires SenderOk(c, s)
    ensures Count(Published(c, s, acts), i) <= Allowed(c, s, i)
    ensures Sorted(Published(c, s, acts))
    ensures forall x :: x in Published(c, s, acts) ==> s.k <= x < |c.blocks|
    decreases |acts|
  {
    if acts != [] && SenderStep(c, s, acts[0]).Some? {
      var t := SenderStep(c, s, acts[0]).value;
      AllowedStep(c, s, acts[0], t, i);
      PublishedIsBounded(c, t, acts[1..], i);
      var rest := Published(c, t, acts[1..]);
      if acts[0].Publish? {
        assert Published(c, s, acts) == [s.k] + rest;
        assert ([s.k] + rest)[1..] == rest;
        SortedStep(s.k, rest);
      } else {
        assert Published(c, s, acts) == [] + rest == rest;
      }
    }
  }

  function Total(xs: seq<nat>, n: nat): nat {
    if n == 0 then 0 else Total(xs, n - 1) + Count(xs, n - 1)
  }

  lemma {:induction false} TotalStep(x: nat, xs: seq<nat>, n: nat)
    ensures Total([x] + xs, n) == Total(xs, n) + if x < n then 1 else 0
  {
    if n > 0 {
      TotalStep(x, xs, n - 1);
      assert ([x] + xs)[1..] == xs;
    }
  }

  lemma {:induction false} TotalOfNothing(n: nat)
    ensures Total([], n) == 0
  {
    if n > 0 {
      TotalOfNothing(n - 1);
    }
  }

  lemma {:induction false} TotalIsLength(xs: seq<nat>, n: nat)
    requires forall x :: x in xs ==> x < n
    ensures Total(xs, n) == |xs|
  {
    if xs == [] {
      TotalOfNothing(n);
    } else {
      assert xs == [xs[0]] + xs[1..] && xs[0] in xs;
      TotalStep(xs[0], xs[1..], n);
      forall x | x in xs[1..] ensures x < n {
        assert x in xs;
      }
      TotalIsLength(xs[1..], n);
    }
  }

  lemma {:induction false} TotalIsBounded(c: Transfer, s: Sender, acts: seq<SenderAction>, n: nat)
    requires SenderOk(c, s) && c.maxRetry >= 0
    ensures Total(Published(c, s, acts), n) <= n * (c.maxRetry + 1)
    decreases n
  {
    if n > 0 {
      TotalIsBounded(c, s, acts, n - 1);
      PublishedIsBounded(c, s, acts, n - 1);
      assert Allowed(c, s, n - 1) <= c.maxRetry + 1;
      assert n * (c.maxRetry + 1) == (n - 1) * (c.maxRetry + 1) + (c.maxRetry + 1);
    }
  }

  /** A whole sending publishes at most |blocks| * (maxRetry + 1) times, and never if maxRetry is negative. */
  lemma SendingIsBounded(c: Transfer, queue: seq<Reply>, acts: seq<SenderAction>)
    ensures c.maxRetry < 0 ==> Published(c, Start(c, queue), acts) == []
    ensures c.maxRetry >= 0 ==> |Published(c, Start(c, queue), acts)| <= |c.blocks| * (c.maxRetry + 1)
  {
    var s := Start(c, queue);
    var xs := Published(c, s, acts);
    PublishedIsBounded(c, s, acts, 0);
    if c.maxRetry >= 0 {
      TotalIsBounded(c, s, acts, |c.blocks|);
      TotalIsLength(xs, |c.blocks|);
    } else if xs != [] {
      PublishedIsBounded(c, s, acts, xs[0]);
    }
  }

  // ----- Sender, receiver and network together -----

  datatype System = System(sender: Sender, receiver: Receiver, data: multiset<FileData>, replies: multiset<Reply>)

  /**
   A failed publish may still have put the block on the channel; a reply whose sending fails is lost.
   Deliver, Drop and Repeat are what the network does.
   */
  datatype Action =
    | SendClear
    | SendPublish(ok: bool, sent: bool)
    | SendPoll
    | SendTimeout
    | SendReply(sent: bool)
    | DeliverData(d: FileData)
    | DropData(d: FileData)
    | RepeatData(d: FileData)
    | DeliverReply(r: Reply)
    | DropReply(r: Reply)
    | RepeatReply(r: Reply)

  function WithSender(s: System, t: Option<Sender>): Option<System> {
    match t
    case None => None
    case Some(sender) => Some(s.(sender := sender))
  }

  function Step(c: Transfer, s: System, a: Action): Option<System> {
    match a
    case SendClear => WithSender(s, SenderStep(c, s.sender, Clear))
    case SendPublish(ok, sent) =>
      if (ok && !sent) || s.sender.k >= |c.blocks| then None
      else
        var d := if sent then s.data + multiset{c.Message(s.sender.k)} else s.data;
        WithSender(s.(data := d), SenderStep(c, s.sender, Publish(ok)))
    case SendPoll => WithSender(s, SenderStep(c, s.sender, Poll))
    case SendTimeout => WithSender(s, SenderStep(c, s.sender, Timeout))
    case SendReply(sent) =>
      var queue := s.receiver.replies;
      if queue == [] then None
      else
        var rest := s.(receiver := s.receiver.(replies := queue[1..]));
        Some(if sent then rest.(replies := s.replies + multiset{queue[0]}) else rest)
    case DeliverData(d) =>
      if d !in s.data then None
      else Some(s.(receiver := HandleFileData(s.receiver, d), data := s.data - multiset{d}))
    case DropData(d) => if d !in s.data then None else Some(s.(data := s.data - multiset{d}))
    case RepeatData(d) => if d !in s.data then None else Some(s.(data := s.data + multiset{d}))
    case DeliverReply(r) =>
      if r !in s.replies then None
      else WithSender(s.(replies := s.replies - multiset{r}), SenderStep(c, s.sender, Arrive(r)))
    case DropReply(r) => if r !in s.replies then None else Some(s.(replies := s.replies - multiset{r}))
    case RepeatReply(r) => if r !in s.replies then None else Some(s.(replies := s.replies + multiset{r}))
  }

  function Run(c: Transfer, s: System, acts: seq<Action>): Option<System>
    decreases |acts|
  {
    if acts == [] then Some(s) else
      match Step(c, s, acts[0])
      case None => None
      case Some(t) => Run(c, t, acts[1..])
  }

  /** Nothing is in flight and nothing was moved out yet; store and queue may hold anything. */
  ghost predicate Initial(c: Transfer, s: System) {
    && s.sender == Start(c, s.sender.queue)
    && s.data == multiset{} && s.replies == multiset{}
    && s.receiver.replies == [] && s.receiver.delivered == []
  }

  /** Every block has content, as split makes them. */
  ghost predicate Proper(c: Transfer) {
    forall i :: 0 <= i < |c.blocks| ==> c.blocks[i] != []
  }

  // ----- The stop-and-wait invariant -----

  ghost predicate Stored(c: Transfer, r: Receiver, i: nat) {
    i < |c.blocks| && i in r.store && r.store[i] == c.blocks[i]
  }

  /** A reply stands for a stored block, or for a finished delivery. */
  ghost predicate ReplyOk(c: Transfer, r: Receiver, reply: Reply) {
    r.delivered == [] ==> reply.blockSeq != |c.blocks| - 1 && Stored(c, r, reply.blockSeq)
  }

  ghost predicate ReceiverOk(c: Transfer, r: Receiver, k: nat) {
    && (forall f :: f in r.delivered ==> f == Flatten(c.blocks))
    && (r.delivered == [] ==> forall i: nat :: i < k ==> Stored(c, r, i))
    && (r.delivered != [] ==> forall i: nat :: i in r.store ==> Stored(c, r, i))
  }

  ghost predicate DataOk(c: Transfer, d: FileData, k: nat) {
    d.blockSeq <= k && d.blockSeq < |c.blocks| && d == c.Message(d.blockSeq)
  }

  /** The part of the invariant that speaks of the sender. */
  ghost predicate SenderInvariant(c: Transfer, s: Sender, r: Receiver) {
    && (s.k < |c.blocks| || s == Sender(0, 0, Finished(false), s.queue))
    && ReceiverOk(c, r, s.k)
    && (s.phase.Cleared? || s.phase.Waiting? ==> forall x :: x in s.queue ==> ReplyOk(c, r, x))
    && (s.phase == Finished(true) ==> r.delivered != [])
  }

  ghost predicate Invariant(c: Transfer, s: System) {
    && SenderInvariant(c, s.sender, s.receiver)
    && (forall d :: d in s.data ==> DataOk(c, d, s.sender.k))
    && (forall r :: r in s.receiver.replies ==> ReplyOk(c, s.receiver, r))
    && (forall r :: r in s.replies ==> ReplyOk(c, s.receiver, r))
  }

  lemma FlattenNotEmpty(c: Transfer)
    requires Proper(c) && c.blocks != []
    ensures Flatten(c.blocks) != []
  {
    assert c.blocks[0] != [];
  }

  /** The last block, with all earlier ones stored, is merged without a gap. */
  lemma LastBlockCompletes(c: Transfer, r: Receiver)
    requires Proper(c) && c.blocks != []
    requires forall i: nat :: i < |c.blocks| - 1 ==> Stored(c, r, i)
    ensures HandleFileData(r, c.Message(|c.blocks| - 1)) ==
            Receiver(map[], r.replies + [Reply(|c.blocks| - 1, RECEIVED, true)], r.delivered + [Flatten(c.blocks)])
  {
    var n := |c.blocks|;
    var store := r.store[n - 1 := c.blocks[n - 1]];
    forall k: nat | k < n ensures k in store && store[k] == c.blocks[k] {
      if k < n - 1 {
        assert Stored(c, r, k);
      }
    }
    assert Holds(store, c.blocks, 0);
    FlattenNotEmpty(c);
    MergeOfAllBlocks(store, c.blocks);
  }

  /** What a merge can give once only blocks of this file are stored. */
  lemma MergeOfProperStore(c: Transfer, store: map<nat, Bytes>)
    requires Proper(c) && c.blocks != []
    requires forall i: nat :: i in store ==> i < |c.blocks| && store[i] == c.blocks[i]
    ensures var m := MergeFiles(store, |c.blocks|);
            m.code >= 0 && (m.code == 0 && |m.out| == |Flatten(c.blocks)| ==> m.out == Flatten(c.blocks))
  {
    var n := |c.blocks|;
    GapIsLeastMissing(store, n, 0);
    FlattenNotEmpty(c);
    if Gap(store, n, 0) == n {
      assert Holds(store, c.blocks, 0);
      MergeOfAllBlocks(store, c.blocks);
    }
  }

  lemma HandleKeepsReceiver(c: Transfer, r: Receiver, k: nat, d: FileData)
    requires Proper(c) && k < |c.blocks| && ReceiverOk(c, r, k) && DataOk(c, d, k)
    ensures var t := HandleFileData(r, d);
            && ReceiverOk(c, t, k)
            && r.delivered <= t.delivered
            && (t.delivered == [] ==> Stored(c, t, d.blockSeq) && (forall i :: Stored(c, r, i) ==> Stored(c, t, i)))
            && (t.replies == r.replies
                || (t.replies == r.replies + [t.replies[|r.replies|]] && ReplyOk(c, t, t.replies[|r.replies|])))
  {
    var n := |c.blocks|;
    var store := r.store[d.blockSeq := d.content];
    if d.isEnd {
      if r.delivered == [] {
        LastBlockCompletes(c, r);
      } else {
        assert forall i: nat :: i in store ==> i < n && store[i] == c.blocks[i] by {
          forall i: nat | i in store ensures i < n && store[i] == c.blocks[i] {
            if i != d.blockSeq {
              assert Stored(c, r, i);
            }
          }
        }
        MergeOfProperStore(c, store);
      }
    } else {
      var t := HandleFileData(r, d);
      forall i | Stored(c, r, i) ensures Stored(c, t, i) {
      }
      if r.delivered == [] {
        forall i: nat | i < k ensures Stored(c, t, i) {
          assert Stored(c, r, i);
        }
      }
    }
  }

  lemma SenderStepKeeps(c: Transfer, s: Sender, r: Receiver, a: SenderAction, t: Sender)
    requires Proper(c) && SenderInvariant(c, s, r)
    requires a.Arrive? ==> ReplyOk(c, r, a.reply)
    requires SenderStep(c, s, a) == Some(t)
    ensures SenderInvariant(c, t, r) && s.k <= t.k
  {
    if a.Poll? && s.queue != [] && s.queue[0].blockSeq == s.k {
      assert s.queue[0] in s.queue;
      assert r.delivered == [] ==> Stored(c, r, s.k);
    }
  }

  lemma DeliveredDataKeeps(c: Transfer, s: System, d: FileData)
    requires Proper(c) && Invariant(c, s) && d in s.data
    ensures Invariant(c, Step(c, s, DeliverData(d)).value)
  {
    var r, t := s.receiver, HandleFileData(s.receiver, d);
    assert DataOk(c, d, s.sender.k);
    HandleKeepsReceiver(c, r, s.sender.k, d);
    forall x | ReplyOk(c, r, x) ensures ReplyOk(c, t, x) {
    }
  }

  /** A step in which only the sender, and perhaps what it publishes, changes. */
  lemma SendingKeeps(c: Transfer, s: System, a: SenderAction, t: System)
    requires Proper(c) && Invariant(c, s)
    requires a.Arrive? ==> ReplyOk(c, s.receiver, a.reply)
    requires SenderStep(c, s.sender, a) == Some(t.sender) && t.receiver == s.receiver && t.replies <= s.replies
    requires t.data == s.data || (s.sender.k < |c.blocks| && t.data == s.data + multiset{c.Message(s.sender.k)})
    ensures Invariant(c, t)
  {
    SenderStepKeeps(c, s.sender, s.receiver, a, t.sender);
    forall d | d in t.data ensures DataOk(c, d, t.sender.k) {
      assert d in s.data ==> DataOk(c, d, s.sender.k);
    }
  }

  /** Whatever the network does, it makes up no messages. */
  lemma NothingNewKeeps(c: Transfer, s: System, t: System)
    requires Invariant(c, s)
    requires t.sender == s.sender && t.receiver.(replies := s.receiver.replies) == s.receiver
    requires forall d :: d in t.data ==> d in s.data
    requires forall r :: r in t.receiver.replies ==> r in s.receiver.replies
    requires forall r :: r in t.replies ==> r in s.replies || r in s.receiver.replies
    ensures Invariant(c, t)
  {
    assert t.receiver.store == s.receiver.store && t.receiver.delivered == s.receiver.delivered;
    assert forall i :: Stored(c, s.receiver, i) <==> Stored(c, t.receiver, i);
    assert forall x :: ReplyOk(c, s.receiver, x) <==> ReplyOk(c, t.receiver, x);
  }

  lemma NetworkAddsNothing(c: Transfer, s: System, a: Action, t: System)
    requires Step(c, s, a) == Some(t)
    requires a.SendReply? || a.DropData? || a.RepeatData? || a.DropReply? || a.RepeatReply?
    ensures t.sender == s.sender && t.receiver.(replies := s.receiver.replies) == s.receiver
    ensures forall d :: d in t.data ==> d in s.data
    ensures forall r :: r in t.receiver.replies ==> r in s.receiver.replies
    ensures forall r :: r in t.replies ==> r in s.replies || r in s.receiver.replies
  {
    if a.SendReply? {
      assert s.receiver.replies[0] in s.receiver.replies;
    }
  }

  lemma StepKeepsInvariant(c: Transfer, s: System, a: Action, t: System)
    requires Proper(c) && Invariant(c, s) && Step(c, s, a) == Some(t)
    ensures Invariant(c, t)
  {
    match a
    case DeliverData(d) => DeliveredDataKeeps(c, s, d);
    case SendClear => SendingKeeps(c, s, Clear, t);
    case SendPublish(ok, sent) => SendingKeeps(c, s, Publish(ok), t);
    case SendPoll => SendingKeeps(c, s, Poll, t);
    case SendTimeout => SendingKeeps(c, s, Timeout, t);
    case DeliverReply(r) => SendingKeeps(c, s, Arrive(r), t);
    case _ =>
      NetworkAddsNothing(c, s, a, t);
      NothingNewKeeps(c, s, t);
  }

  lemma {:induction false} RunKeepsInvariant(c: Transfer, s: System, acts: seq<Action>, t: System)
    requires Proper(c) && Invariant(c, s) && Run(c, s, acts) == Some(t)
    ensures Invariant(c, t)
    decreases |acts|
  {
    if acts != [] {
      var u := Step(c, s, acts[0]).value;
      StepKeepsInvariant(c, s, acts[0], u);
      RunKeepsInvariant(c, u, acts[1..], t);
    }
  }

  lemma InitialInvariant(c: Transfer, s: System)
    requires Proper(c) && Initial(c, s)
    ensures Invariant(c, s)
  {
  }

  // ----- Safety -----

  /**
   Whatever the network loses, repeats and reorders: everything the receiver moves out is the
   source, and a sending that ends with true has been delivered.
   */
  lemma TrueMeansDelivered(data: Bytes, b: nat, c: Transfer, s: System, acts: seq<Action>, t: System)
    requires b > 0 && c.blocks == Blocks(data, b)
    requires Initial(c, s) && Run(c, s, acts) == Some(t)
    ensures forall f :: f in t.receiver.delivered ==> f == data
    ensures t.sender.phase == Finished(true) ==>
              t.receiver.delivered != [] && t.receiver.delivered[|t.receiver.delivered| - 1] == data
  {
    BlocksCoverFile(data, b);
    InitialInvariant(c, s);
    RunKeepsInvariant(c, s, acts, t);
    if t.receiver.delivered != [] {
      assert t.receiver.delivered[|t.receiver.delivered| - 1] in t.receiver.delivered;
    }
  }

  lemma FirstLastBlock(c: Transfer, s: System, d: FileData)
    requires Proper(c) && Invariant(c, s) && s.receiver.delivered == [] && d in s.data && d.isEnd
    ensures Step(c, s, DeliverData(d)).value.receiver ==
            Receiver(map[], s.receiver.replies + [Reply(|c.blocks| - 1, RECEIVED, true)], [Flatten(c.blocks)])
  {
    assert DataOk(c, d, s.sender.k);
    LastBlockCompletes(c, s.receiver);
  }

  /**
   While nothing was moved out, the store holds exactly the sender's bytes for every block below
   the current one, and the first last block to arrive is merged, moved out and confirmed.
   */
  lemma StopAndWait(data: Bytes, b: nat, c: Transfer, s: System, acts: seq<Action>, t: System)
    requires b > 0 && c.blocks == Blocks(data, b)
    requires Initial(c, s) && Run(c, s, acts) == Some(t)
    requires t.receiver.delivered == []
    ensures forall i: nat :: i < t.sender.k ==> Stored(c, t.receiver, i)
    ensures forall d :: d in t.data && d.isEnd ==>
              Step(c, t, DeliverData(d)).value.receiver ==
              Receiver(map[], t.receiver.replies + [Reply(|c.blocks| - 1, RECEIVED, true)], [data])
  {
    BlocksCoverFile(data, b);
    InitialInvariant(c, s);
    RunKeepsInvariant(c, s, acts, t);
    forall d | d in t.data && d.isEnd
      ensures Step(c, t, DeliverData(d)).value.receiver ==
              Receiver(map[], t.receiver.replies + [Reply(|c.blocks| - 1, RECEIVED, true)], [data])
    {
      FirstLastBlock(c, t, d);
    }
  }

  // ----- When the receiver confirms -----

  /** The receiver answers d with the state that confirms the file. */
  ghost predicate Confirms(r: Receiver, d: FileData) {
    HandleFileData(r, d).replies == r.replies + [Reply(d.blockSeq, RECEIVED, true)]
  }

  /**
   A message that claims to be the last confirms the file exactly if all blocks are there and have the
   announced size. There is one other case: merge also returns 0 if block 0 is missing, which
   goes unnoticed exactly if the announced size is 0.
   */
  lemma WhenConfirmed(r: Receiver, d: FileData)
    requires d.isEnd
    ensures var store := r.store[d.blockSeq := d.content];
            Confirms(r, d) <==>
            || ((forall i: nat :: i < d.totalNum ==> i in store) && 0 < |Joined(store, 0, d.totalNum)| == d.totalSize)
            || (d.totalNum > 0 && 0 !in store && d.totalSize == 0)
  {
    var store := r.store[d.blockSeq := d.content];
    GapIsLeastMissing(store, d.totalNum, 0);
    assert (r.replies + [Reply(d.blockSeq, RECEIVED, true)])[|r.replies|] == Reply(d.blockSeq, RECEIVED, true);
    assert |r.replies| != |r.replies + [Reply(d.blockSeq, RECEIVED, true)]|;
    var other := r.replies + [Reply(d.blockSeq, RESEND_ALL, true)];
    assert other[|r.replies|] == Reply(d.blockSeq, RESEND_ALL, true);
  }

  /** All of n blocks are there, and none of them holds a byte. */
  ghost predicate EmptyThroughout(store: map<nat, Bytes>, n: nat) {
    (forall i: nat :: i < n ==> i in store) && Joined(store, 0, n) == []
  }

  /**
   What the reply x to message d says: state 5 if a file was moved out in this step, 4 if a last message
   finds all blocks but no bytes, 1 if the message is not the last; it names the block, and is marked
   as the end exactly for a last message.
   */
  ghost predicate Answers(r: Receiver, d: FileData, t: Receiver, x: Reply) {
    && x.blockSeq == d.blockSeq && (x.isEnd <==> d.isEnd)
    && (x.state == 5 || x.state == 4 || x.state == 1)
    && (x.state == 5 <==> |t.delivered| == |r.delivered| + 1)
    && (x.state == 4 <==> d.isEnd && EmptyThroughout(r.store[d.blockSeq := d.content], d.totalNum))
    && (x.state == 1 <==> !d.isEnd)
  }

  /**
   Every message adds at most one reply, behind those that wait, and the reply says what happened. A
   last message gets none exactly if it moves nothing out although its blocks hold bytes or one is missing.
   A message is stored, unless it completes a file: then the store is emptied, and the file has the
   announced size.
   */
  lemma EveryAnswer(r: Receiver, d: FileData)
    ensures var t := HandleFileData(r, d);
            if d.isEnd && t.delivered == r.delivered &&
               !EmptyThroughout(r.store[d.blockSeq := d.content], d.totalNum)
            then t.replies == r.replies
            else exists x :: t.replies == r.replies + [x] && Answers(r, d, t, x)
    ensures var t := HandleFileData(r, d);
            if t.delivered == r.delivered then t.store == r.store[d.blockSeq := d.content]
            else && d.isEnd && t.store == map[]
                 && t.delivered == r.delivered + [t.delivered[|r.delivered|]]
                 && |t.delivered[|r.delivered|]| == d.totalSize
  {
    var t, store := HandleFileData(r, d), r.store[d.blockSeq := d.content];
    GapIsLeastMissing(store, d.totalNum, 0);
    if t.replies != r.replies {
      var x := t.replies[|r.replies|];
      assert t.replies == r.replies + [x] && Answers(r, d, t, x);
    }
  }

  /** With the blocks that split makes, the last one confirms the file exactly if every block is there. */
  lemma ConfirmedMeansComplete(data: Bytes, b: nat, c: Transfer, r: Receiver)
    requires b > 0 && data != [] && c.blocks == Blocks(data, b)
    requires forall i: nat :: i in r.store && i < |c.blocks| ==> r.store[i] == c.blocks[i]
    ensures |c.blocks| > 0
    ensures Confirms(r, c.Message(|c.blocks| - 1)) <==> forall i: nat :: i < |c.blocks| - 1 ==> i in r.store
  {
    BlocksCoverFile(data, b);
    var d := c.Message(|c.blocks| - 1);
    var store := r.store[d.blockSeq := d.content];
    WhenConfirmed(r, d);
    if forall i: nat :: i < |c.blocks| - 1 ==> i in r.store {
      LastBlockCompletes(c, r);
    } else {
      var i: nat :| i < |c.blocks| - 1 && i !in r.store;
      assert i !in store;
    }
  }

  // ----- The order of the replies -----

  /** What a step adds at the end of the receiver's queue of replies. */
  function QueuedIn(s: System, a: Action, t: System): seq<Reply> {
    var n := |s.receiver.replies|;
    if a.DeliverData? && |t.receiver.replies| > n then t.receiver.replies[n..] else []
  }

  /** What a step takes out at its front, to be sent. */
  function TakenIn(s: System, a: Action): seq<Reply> {
    if a.SendReply? && s.receiver.replies != [] then [s.receiver.replies[0]] else []
  }

  /** The replies queued by the receiver in a run, in order. */
  function Queued(c: Transfer, s: System, acts: seq<Action>): seq<Reply>
    decreases |acts|
  {
    if acts == [] then [] else
      match Step(c, s, acts[0])
      case None => []
      case Some(t) => QueuedIn(s, acts[0], t) + Queued(c, t, acts[1..])
  }

  /** The replies taken out to be sent in a run, in order. */
  function TakenOut(c: Transfer, s: System, acts: seq<Action>): seq<Reply>
    decreases |acts|
  {
    if acts == [] then [] else
      match Step(c, s, acts[0])
      case None => []
      case Some(t) => TakenIn(s, acts[0]) + TakenOut(c, t, acts[1..])
  }

  lemma QueueInOneStep(c: Transfer, s: System, a: Action, t: System)
    requires Step(c, s, a) == Some(t)
    ensures s.receiver.replies + QueuedIn(s, a, t) == TakenIn(s, a) + t.receiver.replies
  {
    if a.DeliverData? {
      EveryAnswer(s.receiver, a.d);
    }
  }

  lemma Exchange(a: seq<Reply>, q: seq<Reply>, x: seq<Reply>, b: seq<Reply>, q': seq<Reply>, x': seq<Reply>,
                 d: seq<Reply>)
    requires a + q == x + b && b + q' == x' + d
    ensures a + (q + q') == (x + x') + d
  {
    assert a + (q + q') == (a + q) + q' == x + (b + q') == (x + x') + d;
  }

  /** Replies are taken out in the order in which they were queued; none is lost, added or changed in the queue. */
  lemma {:induction false} RepliesKeepTheirOrder(c: Transfer, s: System, acts: seq<Action>, t: System)
    requires Run(c, s, acts) == Some(t)
    ensures s.receiver.replies + Queued(c, s, acts) == TakenOut(c, s, acts) + t.receiver.replies
    decreases |acts|
  {
    if acts != [] {
      var u := Step(c, s, acts[0]).value;
      QueueInOneStep(c, s, acts[0], u);
      RepliesKeepTheirOrder(c, u, acts[1..], t);
      Exchange(s.receiver.replies, QueuedIn(s, acts[0], u), TakenIn(s, acts[0]), u.receiver.replies,
               Queued(c, u, acts[1..]), TakenOut(c, u, acts[1..]), t.receiver.replies);
    }
  }

  // ----- Runs of the whole system, seen from the sender -----

  function PartOf(a: Action): Option<SenderAction> {
    match a
    case SendClear => Some(Clear)
    case SendPublish(ok, _) => Some(SenderAction.Publish(ok))
    case SendPoll => Some(Poll)
    case SendTimeout => Some(Timeout)
    case DeliverReply(r) => Some(Arrive(r))
    case _ => None
  }

  function SenderPart(acts: seq<Action>): seq<SenderAction> {
    if acts == [] then [] else
      match PartOf(acts[0])
      case None => SenderPart(acts[1..])
      case Some(a) => [a] + SenderPart(acts[1..])
  }

  lemma PartSteps(c: Transfer, s: System, a: Action, t: System)
    requires Step(c, s, a) == Some(t)
    ensures PartOf(a).None? ==> t.sender == s.sender
    ensures PartOf(a).Some? ==> SenderStep(c, s.sender, PartOf(a).value) == Some(t.sender)
  {
  }

  /** What the sender does in a run of the whole system is a run of the sender. */
  lemma {:induction false} SenderPartRuns(c: Transfer, s: System, acts: seq<Action>, t: System)
    requires Run(c, s, acts) == Some(t)
    ensures SenderRun(c, s.sender, SenderPart(acts)) == Some(t.sender)
    decreases |acts|
  {
    if acts != [] {
      var u := Step(c, s, acts[0]).value;
      PartSteps(c, s, acts[0], u);
      SenderPartRuns(c, u, acts[1..], t);
      var rest := SenderPart(acts[1..]);
      if PartOf(acts[0]).Some? {
        assert ([PartOf(acts[0]).value] + rest)[1..] == rest;
      }
    }
  }

  /** Whatever the network does, a sending publishes at most |blocks| * (maxRetry + 1) times. */
  lemma SystemRunIsBounded(c: Transfer, s: System, acts: seq<Action>, t: System)
    requires Initial(c, s) && Run(c, s, acts) == Some(t)
    ensures var part := SenderPart(acts);
            && SenderRun(c, s.sender, part) == Some(t.sender)
            && |Published(c, s.sender, part)| <= |c.blocks| * (if c.maxRetry < 0 then 0 else c.maxRetry + 1)
            && Sorted(Published(c, s.sender, part))
  {
    SenderPartRuns(c, s, acts, t);
    SendingIsBounded(c, s.sender.queue, SenderPart(acts));
    PublishedIsBounded(c, s.sender, SenderPart(acts), 0);
  }

  // ----- Runs that succeed, and runs that fail after the delivery -----

  lemma RunStep(c: Transfer, s: System, a: Action, t: System, acts: seq<Action>)
    requires Step(c, s, a) == Some(t)
    ensures Run(c, s, [a] + acts) == Run(c, t, acts)
  {
    assert ([a] + acts)[1..] == acts;
  }

  lemma {:induction false} RunRun(c: Transfer, s: System, a: seq<Action>, t: System, b: seq<Action>)
    requires Run(c, s, a) == Some(t)
    ensures Run(c, s, a + b) == Run(c, t, b)
    decreases |a|
  {
    if a == [] {
      assert a + b == b;
    } else {
      assert (a + b)[1..] == a[1..] + b && (a + b)[0] == a[0];
      RunRun(c, Step(c, s, a[0]).value, a[1..], t, b);
    }
  }

  /** Before block k, with nothing under way. */
  function Calm(c: Transfer, k: nat, queue: seq<Reply>, store: map<nat, Bytes>): System
    requires k < |c.blocks|
  {
    System(EnterBlock(c, k, queue), Receiver(store, [], []), multiset{}, multiset{})
  }

  /** The sender has published block k, and the receiver has handled it. */
  function Handled(c: Transfer, k: nat, store: map<nat, Bytes>): System
    requires k < |c.blocks|
  {
    System(Sender(k, 0, Waiting, []), HandleFileData(Receiver(store, [], []), c.Message(k)), multiset{}, multiset{})
  }

  lemma BlockIsHandled(c: Transfer, k: nat, queue: seq<Reply>, store: map<nat, Bytes>)
    requires Proper(c) && c.maxRetry >= 0 && k < |c.blocks|
    ensures Run(c, Calm(c, k, queue, store), [SendClear, SendPublish(true, true), DeliverData(c.Message(k))]) ==
            Some(Handled(c, k, store))
  {
    var s0, d := Calm(c, k, queue, store), c.Message(k);
    var s1 := s0.(sender := Sender(k, 0, Cleared, []));
    var s2 := s0.(sender := Sender(k, 0, Waiting, []), data := multiset{d});
    assert multiset{} + multiset{d} == multiset{d} && multiset{d} - multiset{d} == multiset{};
    RunStep(c, s2, DeliverData(d), Handled(c, k, store), []);
    RunStep(c, s1, SendPublish(true, true), s2, [DeliverData(d)]);
    RunStep(c, s0, SendClear, s1, [SendPublish(true, true), DeliverData(d)]);
    assert [SendClear] + [SendPublish(true, true), DeliverData(d)]
        == [SendClear, SendPublish(true, true), DeliverData(d)];
    assert [SendPublish(true, true)] + [DeliverData(d)] == [SendPublish(true, true), DeliverData(d)];
    assert [DeliverData(d)] + [] == [DeliverData(d)];
  }

  lemma ReplyIsHandled(c: Transfer, k: nat, r: Receiver, reply: Reply)
    requires k < |c.blocks| && r.replies == [reply] && reply.blockSeq == k
    ensures Run(c, System(Sender(k, 0, Waiting, []), r, multiset{}, multiset{}),
                [SendReply(true), DeliverReply(reply), SendPoll]) ==
            Some(System(Answered(c, Sender(k, 0, Waiting, [])), r.(replies := []), multiset{}, multiset{}))
  {
    var s0 := System(Sender(k, 0, Waiting, []), r, multiset{}, multiset{});
    var s1 := s0.(receiver := r.(replies := []), replies := multiset{reply});
    var s2 := s0.(receiver := r.(replies := []), sender := Sender(k, 0, Waiting, [reply]));
    assert multiset{} + multiset{reply} == multiset{reply} && multiset{reply} - multiset{reply} == multiset{};
    assert [] + [reply] == [reply] && [reply][1..] == [];
    RunStep(c, s2, SendPoll, s2.(sender := Answered(c, Sender(k, 0, Waiting, []))), []);
    RunStep(c, s1, DeliverReply(reply), s2, [SendPoll]);
    RunStep(c, s0, SendReply(true), s1, [DeliverReply(reply), SendPoll]);
    assert [SendReply(true)] + [DeliverReply(reply), SendPoll] == [SendReply(true), DeliverReply(reply), SendPoll];
    assert [DeliverReply(reply)] + [SendPoll] == [DeliverReply(reply), SendPoll];
    assert [SendPoll] + [] == [SendPoll];
  }

  lemma OneBlockGoesThrough(c: Transfer, k: nat, queue: seq<Reply>, store: map<nat, Bytes>) returns (acts: seq<Action>)
    requires Proper(c) && c.maxRetry >= 0 && k < |c.blocks| - 1
    ensures Run(c, Calm(c, k, queue, store), acts) == Some(Calm(c, k + 1, [], store[k := c.blocks[k]]))
  {
    var reply := Reply(k, TRANSFERRING, false);
    var a := [SendClear, SendPublish(true, true), DeliverData(c.Message(k))];
    var b := [SendReply(true), DeliverReply(reply), SendPoll];
    var h := Handled(c, k, store);
    BlockIsHandled(c, k, queue, store);
    assert h.receiver.replies == [reply];
    ReplyIsHandled(c, k, h.receiver, reply);
    RunRun(c, Calm(c, k, queue, store), a, h, b);
    acts := a + b;
  }

  /** Without faults, the sending comes to the last block. */
  lemma {:induction false} BlocksGoThrough(c: Transfer, k: nat, queue: seq<Reply>, store: map<nat, Bytes>)
    returns (acts: seq<Action>, q: seq<Reply>, full: map<nat, Bytes>)
    requires Proper(c) && c.maxRetry >= 0 && k < |c.blocks|
    requires forall i: nat :: i < k ==> i in store && store[i] == c.blocks[i]
    ensures Run(c, Calm(c, k, queue, store), acts) == Some(Calm(c, |c.blocks| - 1, q, full))
    ensures forall i: nat :: i < |c.blocks| - 1 ==> i in full && full[i] == c.blocks[i]
    decreases |c.blocks| - k
  {
    if k == |c.blocks| - 1 {
      return [], queue, store;
    }
    var a := OneBlockGoesThrough(c, k, queue, store);
    var b;
    b, q, full := BlocksGoThrough(c, k + 1, [], store[k := c.blocks[k]]);
    RunRun(c, Calm(c, k, queue, store), a, Calm(c, k + 1, [], store[k := c.blocks[k]]), b);
    acts := a + b;
  }

  lemma {:induction false} GivesUp(c: Transfer, s: System) returns (acts: seq<Action>)
    requires s.sender.phase.Waiting? && s.sender.k < |c.blocks| && s.sender.retry <= c.maxRetry
    ensures Run(c, s, acts).Some? && Run(c, s, acts).value.sender.phase == Finished(false)
    ensures Run(c, s, acts).value.receiver == s.receiver
    decreases c.maxRetry - s.sender.retry
  {
    var t := s.(sender := Retried(c, s.sender));
    if s.sender.retry == c.maxRetry {
      RunStep(c, s, SendTimeout, t, []);
      return [SendTimeout] + [];
    }
    var u := t.(sender := t.sender.(phase := Cleared, queue := []));
    var v := u.(sender := u.sender.(phase := Waiting), data := u.data + multiset{c.Message(u.sender.k)});
    var rest := GivesUp(c, v);
    RunStep(c, u, SendPublish(true, true), v, rest);
    RunStep(c, t, SendClear, u, [SendPublish(true, true)] + rest);
    RunStep(c, s, SendTimeout, t, [SendClear] + ([SendPublish(true, true)] + rest));
    acts := [SendTimeout] + ([SendClear] + ([SendPublish(true, true)] + rest));
  }

  /** The file is delivered, and its confirmation is about to be sent. */
  function Delivered(c: Transfer): System
    requires c.blocks != []
  {
    var last := |c.blocks| - 1;
    System(Sender(last, 0, Waiting, []), Receiver(map[], [Reply(last, RECEIVED, true)], [Flatten(c.blocks)]),
           multiset{}, multiset{})
  }

  lemma LastBlockIsDelivered(c: Transfer, store: map<nat, Bytes>)
    requires Proper(c) && c.blocks != []
    requires forall i: nat :: i < |c.blocks| - 1 ==> i in store && store[i] == c.blocks[i]
    ensures Handled(c, |c.blocks| - 1, store) == Delivered(c)
  {
    LastBlockCompletes(c, Receiver(store, [], []));
  }

  lemma LastBlockIsReached(c: Transfer, queue: seq<Reply>, store: map<nat, Bytes>) returns (acts: seq<Action>)
    requires Proper(c) && c.maxRetry >= 0 && c.blocks != []
    ensures Run(c, Calm(c, 0, queue, store), acts) == Some(Delivered(c))
  {
    var last := |c.blocks| - 1;
    var start, q, full := BlocksGoThrough(c, 0, queue, store);
    var a := [SendClear, SendPublish(true, true), DeliverData(c.Message(last))];
    BlockIsHandled(c, last, q, full);
    LastBlockIsDelivered(c, full);
    RunRun(c, Calm(c, 0, queue, store), start, Calm(c, last, q, full), a);
    acts := start + a;
  }

  ghost predicate EndsWith(c: Transfer, s: System, acts: seq<Action>, result: bool) {
    Run(c, s, acts).Some? && Run(c, s, acts).value.sender.phase == Finished(result)
  }

  ghost predicate Delivers(c: Transfer, s: System, acts: seq<Action>, data: Bytes) {
    Run(c, s, acts).Some? && Run(c, s, acts).value.receiver.delivered == [data]
  }

  /** The file is delivered, and its confirmation was lost. */
  function Unconfirmed(c: Transfer): System
    requires c.blocks != []
  {
    var h := Delivered(c);
    h.(receiver := h.receiver.(replies := []))
  }

  /**
   Every nonempty file can be sent, can also be reported as failed although it was delivered, and
   can lose its confirmation.
   */
  lemma BothEndsArePossible(data: Bytes, b: nat, c: Transfer, s: System)
    returns (good: seq<Action>, bad: seq<Action>, lost: seq<Action>)
    requires b > 0 && data != [] && c.blocks == Blocks(data, b) && c.maxRetry >= 0 && Initial(c, s)
    ensures EndsWith(c, s, good, true)
    ensures EndsWith(c, s, bad, false) && Delivers(c, s, bad, data)
    ensures Run(c, s, lost) == Some(Unconfirmed(c))
  {
    BlocksCoverFile(data, b);
    var last := |c.blocks| - 1;
    assert s == Calm(c, 0, s.sender.queue, s.receiver.store);
    var start := LastBlockIsReached(c, s.sender.queue, s.receiver.store);
    var h := Delivered(c);

    var reply := Reply(last, RECEIVED, true);
    var answer := [SendReply(true), DeliverReply(reply), SendPoll];
    ReplyIsHandled(c, last, h.receiver, reply);
    RunRun(c, s, start, h, answer);
    good := start + answer;

    var failing := GivesUp(c, h);
    RunRun(c, s, start, h, failing);
    bad := start + failing;

    LosingTheReply(c, h, reply);
    RunRun(c, s, start, h, [SendReply(false)]);
    lost := start + [SendReply(false)];
  }

  lemma LosingTheReply(c: Transfer, h: System, reply: Reply)
    requires h.receiver.replies == [reply]
    ensures Run(c, h, [SendReply(false)]) == Some(h.(receiver := h.receiver.(replies := [])))
  {
    assert [reply][1..] == [];
    RunStep(c, h, SendReply(false), h.(receiver := h.receiver.(replies := [])), []);
    assert [SendReply(false)] + [] == [SendReply(false)];
  }
}
