/**
 What can still become of a transfer whose file is delivered while its sender is still waiting: when
 some course of the network lets it end with true, and when none does.
 */
module FileRecovery {
  import opened Collections
  import opened FileSplit
  import opened FileTransfer

  /** The file is delivered, and the sender still works on the last block. */
  ghost predicate Settled(c: Transfer, s: System) {
    && Proper(c) && c.blocks != [] && Invariant(c, s) && SenderOk(c, s.sender)
    && s.receiver.delivered != [] && s.sender.k == |c.blocks| - 1 && !s.sender.phase.Finished?
  }

  predicate NamesLast(c: Transfer, r: Reply) {
    r.blockSeq == |c.blocks| - 1
  }

  /** A reply that names the last block is on its way, or in a queue that is not thrown away first. */
  ghost predicate ReplyCanArrive(c: Transfer, s: System) {
    || (exists r :: r in s.replies && NamesLast(c, r))
    || (exists r :: r in s.receiver.replies && NamesLast(c, r))
    || (!s.sender.phase.Ready? && exists r :: r in s.sender.queue && NamesLast(c, r))
  }

  ghost predicate BlockCanArrive(c: Transfer, s: System, i: nat)
    requires i < |c.blocks|
  {
    i in s.receiver.store || c.Message(i) in s.data
  }

  /** The last block is under way, or will be published at least once more if the sender wants to. */
  ghost predicate LastCanArrive(c: Transfer, s: System)
    requires c.blocks != []
  {
    c.Message(|c.blocks| - 1) in s.data || !s.sender.phase.Waiting? || s.sender.retry < c.maxRetry
  }

  ghost predicate EarlierCanArrive(c: Transfer, s: System) {
    forall i: nat :: i < |c.blocks| - 1 ==> BlockCanArrive(c, s, i)
  }

  ghost predicate BlocksCanArrive(c: Transfer, s: System)
    requires c.blocks != []
  {
    EarlierCanArrive(c, s) && LastCanArrive(c, s)
  }

  // ----- A course that ends with true -----

  lemma EndsStep(c: Transfer, s: System, a: Action, t: System, acts: seq<Action>)
    requires Step(c, s, a) == Some(t) && EndsWith(c, t, acts, true)
    ensures EndsWith(c, s, [a] + acts, true)
  {
    RunStep(c, s, a, t, acts);
  }

  ghost predicate WaitsForLast(c: Transfer, s: System) {
    c.blocks != [] && s.sender.phase == Waiting && s.sender.k == |c.blocks| - 1
  }

  lemma {:induction false} QueuedReply(c: Transfer, s: System) returns (acts: seq<Action>)
    requires WaitsForLast(c, s) && exists r :: r in s.sender.queue && NamesLast(c, r)
    ensures EndsWith(c, s, acts, true)
    decreases |s.sender.queue|
  {
    var t := s.(sender := SenderStep(c, s.sender, Poll).value);
    if NamesLast(c, s.sender.queue[0]) {
      RunStep(c, s, SendPoll, t, []);
      acts := [SendPoll] + [];
    } else {
      assert s.sender.queue == [s.sender.queue[0]] + s.sender.queue[1..];
      var rest := QueuedReply(c, t);
      EndsStep(c, s, SendPoll, t, rest);
      acts := [SendPoll] + rest;
    }
  }

  lemma ReplyUnderWay(c: Transfer, s: System, r: Reply) returns (acts: seq<Action>)
    requires WaitsForLast(c, s) && r in s.replies && NamesLast(c, r)
    ensures EndsWith(c, s, acts, true)
  {
    var t := Step(c, s, DeliverReply(r)).value;
    assert t.sender.queue[|s.sender.queue|] == r;
    var rest := QueuedReply(c, t);
    EndsStep(c, s, DeliverReply(r), t, rest);
    acts := [DeliverReply(r)] + rest;
  }

  lemma {:induction false} ReplyToBeSent(c: Transfer, s: System) returns (acts: seq<Action>)
    requires WaitsForLast(c, s) && exists r :: r in s.receiver.replies && NamesLast(c, r)
    ensures EndsWith(c, s, acts, true)
    decreases |s.receiver.replies|
  {
    var queue := s.receiver.replies;
    var t := Step(c, s, SendReply(true)).value;
    var rest;
    if NamesLast(c, queue[0]) {
      rest := ReplyUnderWay(c, t, queue[0]);
    } else {
      assert queue == [queue[0]] + queue[1..];
      rest := ReplyToBeSent(c, t);
    }
    EndsStep(c, s, SendReply(true), t, rest);
    acts := [SendReply(true)] + rest;
  }

  lemma ReplyGetsThrough(c: Transfer, s: System) returns (acts: seq<Action>)
    requires WaitsForLast(c, s) && ReplyCanArrive(c, s)
    ensures EndsWith(c, s, acts, true)
  {
    if r :| r in s.replies && NamesLast(c, r) {
      acts := ReplyUnderWay(c, s, r);
    } else if r :| r in s.receiver.replies && NamesLast(c, r) {
      acts := ReplyToBeSent(c, s);
    } else {
      acts := QueuedReply(c, s);
    }
  }

  lemma StepStaysSettled(c: Transfer, s: System, a: Action, t: System)
    requires Settled(c, s) && Step(c, s, a) == Some(t)
    requires t.receiver.delivered != [] && t.sender.k == s.sender.k && !t.sender.phase.Finished?
    requires t.sender.retry <= c.maxRetry
    ensures Settled(c, t)
  {
    StepKeepsInvariant(c, s, a, t);
  }

  lemma LastGetsThrough(c: Transfer, s: System) returns (acts: seq<Action>)
    requires Settled(c, s) && WaitsForLast(c, s)
    requires forall j: nat :: j < |c.blocks| - 1 ==> j in s.receiver.store
    requires c.Message(|c.blocks| - 1) in s.data
    ensures EndsWith(c, s, acts, true)
  {
    var last := |c.blocks| - 1;
    var d, reply := c.Message(last), Reply(last, RECEIVED, true);
    var t := Step(c, s, DeliverData(d)).value;
    forall j: nat | j < last ensures Stored(c, s.receiver, j) {
      assert j in s.receiver.store;
    }
    LastBlockCompletes(c, s.receiver);
    assert t.receiver.replies[|s.receiver.replies|] == reply;
    assert reply in t.receiver.replies && NamesLast(c, reply);
    var rest := ReplyToBeSent(c, t);
    EndsStep(c, s, DeliverData(d), t, rest);
    acts := [DeliverData(d)] + rest;
  }

  /** The missing blocks are delivered one after the other, and then the last one. */
  lemma {:induction false} BlocksGetThrough(c: Transfer, s: System, i: nat) returns (acts: seq<Action>)
    requires Settled(c, s) && WaitsForLast(c, s) && i < |c.blocks|
    requires forall j: nat :: j < i ==> j in s.receiver.store
    requires EarlierCanArrive(c, s) && c.Message(|c.blocks| - 1) in s.data
    ensures EndsWith(c, s, acts, true)
    decreases |c.blocks| - i
  {
    var last := |c.blocks| - 1;
    if i == last {
      acts := LastGetsThrough(c, s);
    } else if i in s.receiver.store {
      acts := BlocksGetThrough(c, s, i + 1);
    } else {
      assert BlockCanArrive(c, s, i);
      var d := c.Message(i);
      var t := Step(c, s, DeliverData(d)).value;
      StepStaysSettled(c, s, DeliverData(d), t);
      EarlierBlockDelivered(c, s, i, t);
      var rest := BlocksGetThrough(c, t, i + 1);
      EndsStep(c, s, DeliverData(d), t, rest);
      acts := [DeliverData(d)] + rest;
    }
  }

  lemma EarlierBlockDelivered(c: Transfer, s: System, i: nat, t: System)
    requires i < |c.blocks| - 1 && c.Message(i) in s.data && Step(c, s, DeliverData(c.Message(i))) == Some(t)
    requires EarlierCanArrive(c, s)
    ensures EarlierCanArrive(c, t)
    ensures t.receiver.store == s.receiver.store[i := c.blocks[i]] && t.sender == s.sender
    ensures c.Message(|c.blocks| - 1) in s.data ==> c.Message(|c.blocks| - 1) in t.data
  {
    forall j: nat | j < |c.blocks| - 1 ensures BlockCanArrive(c, t, j) {
      assert BlockCanArrive(c, s, j);
      assert j != i ==> c.Message(j) != c.Message(i);
    }
  }

  /** Publishing the last block once more, which throws away what is queued. */
  lemma Republishes(c: Transfer, s: System) returns (acts: seq<Action>, t: System)
    requires c.blocks != [] && s.sender.k == |c.blocks| - 1 && s.sender.phase == Ready
    ensures Run(c, s, acts) == Some(t)
    ensures t == s.(sender := s.sender.(phase := Waiting, queue := []),
                    data := s.data + multiset{c.Message(s.sender.k)})
  {
    var u := s.(sender := s.sender.(phase := Cleared, queue := []));
    t := u.(sender := u.sender.(phase := Waiting), data := s.data + multiset{c.Message(s.sender.k)});
    RunStep(c, u, SendPublish(true, true), t, []);
    RunStep(c, s, SendClear, u, [SendPublish(true, true)] + []);
    acts := [SendClear] + ([SendPublish(true, true)] + []);
  }

  lemma RunThenEnds(c: Transfer, s: System, acts: seq<Action>, t: System, more: seq<Action>)
    requires Run(c, s, acts) == Some(t) && EndsWith(c, t, more, true)
    ensures EndsWith(c, s, acts + more, true)
  {
    RunRun(c, s, acts, t, more);
  }

  lemma {:induction false} RunStaysSettled(c: Transfer, s: System, acts: seq<Action>, t: System)
    requires Settled(c, s) && Run(c, s, acts) == Some(t)
    requires t.receiver.delivered != [] && t.sender.k == s.sender.k && !t.sender.phase.Finished?
    requires t.sender.retry <= c.maxRetry
    ensures Settled(c, t)
  {
    RunKeepsInvariant(c, s, acts, t);
  }

  /** The sender comes to wait, with whatever is under way still under way. */
  lemma ComesToWait(c: Transfer, s: System) returns (acts: seq<Action>, t: System)
    requires Settled(c, s)
    ensures Run(c, s, acts) == Some(t) && Settled(c, t) && WaitsForLast(c, t)
    ensures t.receiver == s.receiver && t.replies == s.replies && s.data <= t.data
    ensures s.sender.phase.Ready? || t.sender.queue == s.sender.queue
    ensures s.sender.phase.Waiting? || c.Message(|c.blocks| - 1) in t.data
  {
    if s.sender.phase.Ready? {
      acts, t := Republishes(c, s);
    } else if s.sender.phase.Cleared? {
      t := s.(sender := s.sender.(phase := Waiting), data := s.data + multiset{c.Message(s.sender.k)});
      RunStep(c, s, SendPublish(true, true), t, []);
      acts := [SendPublish(true, true)] + [];
    } else {
      acts, t := [], s;
    }
    RunStaysSettled(c, s, acts, t);
  }

  /** Also a sender that waits can publish again, if it has a retry left. */
  lemma WaitsWithLast(c: Transfer, s: System) returns (acts: seq<Action>, t: System)
    requires Settled(c, s) && LastCanArrive(c, s)
    ensures Run(c, s, acts) == Some(t) && Settled(c, t) && WaitsForLast(c, t)
    ensures t.receiver == s.receiver && s.data <= t.data && c.Message(|c.blocks| - 1) in t.data
  {
    if s.sender.phase.Waiting? && c.Message(|c.blocks| - 1) !in s.data {
      var u := s.(sender := Retried(c, s.sender));
      var rest;
      rest, t := Republishes(c, u);
      RunStep(c, s, SendTimeout, u, rest);
      acts := [SendTimeout] + rest;
      RunStaysSettled(c, s, acts, t);
    } else {
      acts, t := ComesToWait(c, s);
    }
  }

  lemma ReplyPathEnds(c: Transfer, s: System) returns (acts: seq<Action>)
    requires Settled(c, s) && ReplyCanArrive(c, s)
    ensures EndsWith(c, s, acts, true)
  {
    var start, t := ComesToWait(c, s);
    assert ReplyCanArrive(c, t);
    var rest := ReplyGetsThrough(c, t);
    RunThenEnds(c, s, start, t, rest);
    acts := start + rest;
  }

  lemma BlockPathEnds(c: Transfer, s: System) returns (acts: seq<Action>)
    requires Settled(c, s) && BlocksCanArrive(c, s)
    ensures EndsWith(c, s, acts, true)
  {
    var start, t := WaitsWithLast(c, s);
    forall i: nat | i < |c.blocks| - 1 ensures BlockCanArrive(c, t, i) {
      assert BlockCanArrive(c, s, i);
    }
    var rest := BlocksGetThrough(c, t, 0);
    RunThenEnds(c, s, start, t, rest);
    acts := start + rest;
  }

  // ----- No course that ends with true -----

  /** The sender has given up, or neither a reply nor all blocks can arrive any more. */
  ghost predicate Hopeless(c: Transfer, s: System) {
    s.sender.phase == Finished(false) || (Settled(c, s) && !ReplyCanArrive(c, s) && !BlocksCanArrive(c, s))
  }

  /** Nothing that could arrive afterwards could not have arrived before. */
  lemma NothingNewCanArrive(c: Transfer, s: System, t: System)
    requires Settled(c, s) && t.sender == s.sender && t.receiver.store == s.receiver.store
    requires forall d :: d in t.data ==> d in s.data
    requires forall r :: r in t.receiver.replies || r in t.replies ==> r in s.receiver.replies || r in s.replies
    ensures ReplyCanArrive(c, t) ==> ReplyCanArrive(c, s)
    ensures BlocksCanArrive(c, t) ==> BlocksCanArrive(c, s)
  {
    if BlocksCanArrive(c, t) {
      forall i: nat | i < |c.blocks| - 1 ensures BlockCanArrive(c, s, i) {
        assert BlockCanArrive(c, t, i);
      }
    }
  }

  lemma SenderStaysOnLast(c: Transfer, s: System, a: SenderAction, t: Sender)
    requires Settled(c, s) && !ReplyCanArrive(c, s)
    requires SenderStep(c, s.sender, a) == Some(t)
    ensures t.phase == Finished(false) || (t.k == s.sender.k && t.retry <= c.maxRetry && !t.phase.Finished?)
  {
    if a.Poll? && s.sender.queue != [] {
      assert s.sender.queue[0] in s.sender.queue;
    }
  }

  lemma NoReplyAfterSending(c: Transfer, s: System, a: SenderAction, t: System)
    requires Settled(c, s) && !ReplyCanArrive(c, s) && !t.sender.phase.Finished?
    requires a.Arrive? ==> !NamesLast(c, a.reply)
    requires SenderStep(c, s.sender, a) == Some(t.sender) && t.receiver == s.receiver && t.replies <= s.replies
    ensures !ReplyCanArrive(c, t)
  {
    forall r | r in t.sender.queue && !t.sender.phase.Ready? ensures !NamesLast(c, r) {
      if a.Arrive? && r !in s.sender.queue {
        assert r == a.reply;
      }
    }
  }

  lemma NoBlocksAfterSending(c: Transfer, s: System, a: SenderAction, t: System)
    requires Settled(c, s) && !BlocksCanArrive(c, s) && !t.sender.phase.Finished? && t.sender.k == s.sender.k
    requires SenderStep(c, s.sender, a) == Some(t.sender) && t.receiver == s.receiver
    requires t.data == s.data || (a.Publish? && t.data == s.data + multiset{c.Message(s.sender.k)})
    ensures !BlocksCanArrive(c, t)
  {
    if !EarlierCanArrive(c, s) {
      var i: nat :| i < |c.blocks| - 1 && !BlockCanArrive(c, s, i);
      assert c.Message(i) != c.Message(s.sender.k);
      assert !BlockCanArrive(c, t, i);
    } else {
      assert !LastCanArrive(c, s) && s.sender.phase.Waiting?;
      assert t.sender.phase.Waiting? && t.sender.retry == s.sender.retry && t.data == s.data;
    }
  }

  lemma HopelessSending(c: Transfer, s: System, a: SenderAction, t: System)
    requires Settled(c, s) && Hopeless(c, s) && Invariant(c, t)
    requires a.Arrive? ==> !NamesLast(c, a.reply)
    requires SenderStep(c, s.sender, a) == Some(t.sender) && t.receiver == s.receiver && t.replies <= s.replies
    requires t.data == s.data || (a.Publish? && t.data == s.data + multiset{c.Message(s.sender.k)})
    ensures Hopeless(c, t)
  {
    SenderStaysOnLast(c, s, a, t.sender);
    if t.sender.phase != Finished(false) {
      NoReplyAfterSending(c, s, a, t);
      NoBlocksAfterSending(c, s, a, t);
    }
  }

  /** The last block does not complete a store with a gap, and brings no reply then. */
  lemma GapStaysSilent(c: Transfer, r: Receiver, gap: nat)
    requires Proper(c) && gap < |c.blocks| - 1 && gap !in r.store
    ensures HandleFileData(r, c.Message(|c.blocks| - 1)) ==
            r.(store := r.store[|c.blocks| - 1 := c.blocks[|c.blocks| - 1]])
  {
    var n := |c.blocks|;
    var store := r.store[n - 1 := c.blocks[n - 1]];
    GapIsLeastMissing(store, n, 0);
    FlattenNotEmpty(c);
    assert gap !in store;
  }

  lemma HopelessDelivery(c: Transfer, s: System, d: FileData, t: System)
    requires Settled(c, s) && Hopeless(c, s) && Invariant(c, t)
    requires Step(c, s, DeliverData(d)) == Some(t)
    ensures Hopeless(c, t)
  {
    var last := |c.blocks| - 1;
    assert DataOk(c, d, s.sender.k);
    if d.blockSeq == last {
      assert LastCanArrive(c, s) && !EarlierCanArrive(c, s);
      var gap: nat :| gap < last && !BlockCanArrive(c, s, gap);
      GapStaysSilent(c, s.receiver, gap);
      assert !BlockCanArrive(c, t, gap);
      assert !ReplyCanArrive(c, t);
    } else {
      EarlierBlockStaysHopeless(c, s, d, t);
    }
  }

  lemma EarlierBlockStaysHopeless(c: Transfer, s: System, d: FileData, t: System)
    requires Settled(c, s) && Hopeless(c, s) && Invariant(c, t)
    requires Step(c, s, DeliverData(d)) == Some(t) && d.blockSeq < |c.blocks| - 1 && d == c.Message(d.blockSeq)
    ensures Hopeless(c, t)
  {
    var reply := Reply(d.blockSeq, TRANSFERRING, false);
    assert t.receiver.replies == s.receiver.replies + [reply];
    assert !ReplyCanArrive(c, t);
    if BlocksCanArrive(c, t) {
      forall i: nat | i < |c.blocks| - 1 ensures BlockCanArrive(c, s, i) {
        assert BlockCanArrive(c, t, i);
      }
    }
  }

  lemma HopelessStep(c: Transfer, s: System, a: Action, t: System)
    requires Settled(c, s) && Hopeless(c, s) && Step(c, s, a) == Some(t)
    ensures Hopeless(c, t)
  {
    StepKeepsInvariant(c, s, a, t);
    match a
    case DeliverData(d) => HopelessDelivery(c, s, d, t);
    case SendClear => HopelessSending(c, s, Clear, t);
    case SendPublish(ok, _) => HopelessSending(c, s, SenderAction.Publish(ok), t);
    case SendPoll => HopelessSending(c, s, Poll, t);
    case SendTimeout => HopelessSending(c, s, Timeout, t);
    case DeliverReply(r) => HopelessSending(c, s, Arrive(r), t);
    case _ =>
      NetworkAddsNothing(c, s, a, t);
      NothingNewCanArrive(c, s, t);
  }

  /** A sender that has given up does nothing more. */
  lemma GivenUpStep(c: Transfer, s: System, a: Action, t: System)
    requires s.sender.phase == Finished(false) && Step(c, s, a) == Some(t)
    ensures t.sender.phase == Finished(false)
  {
  }

  lemma {:induction false} HopelessRun(c: Transfer, s: System, acts: seq<Action>)
    requires Hopeless(c, s)
    ensures !EndsWith(c, s, acts, true)
    decreases |acts|
  {
    if acts != [] && Step(c, s, acts[0]).Some? {
      var t := Step(c, s, acts[0]).value;
      if s.sender.phase == Finished(false) {
        GivenUpStep(c, s, acts[0], t);
      } else {
        HopelessStep(c, s, acts[0], t);
      }
      HopelessRun(c, t, acts[1..]);
    }
  }

  // ----- Exactly when -----

  lemma {:induction false} SenderStaysOk(c: Transfer, s: Sender, acts: seq<SenderAction>, t: Sender)
    requires SenderOk(c, s) && SenderRun(c, s, acts) == Some(t)
    ensures SenderOk(c, t)
    decreases |acts|
  {
    if acts != [] {
      var u := SenderStep(c, s, acts[0]).value;
      AllowedStep(c, s, acts[0], u, 0);
      SenderStaysOk(c, u, acts[1..], t);
    }
  }

  /** Every state that a run reaches after the delivery, with the sender at the last block, is settled. */
  lemma ReachedIsSettled(c: Transfer, s: System, acts: seq<Action>, t: System)
    requires Proper(c) && c.blocks != [] && Initial(c, s) && Run(c, s, acts) == Some(t)
    requires t.receiver.delivered != [] && t.sender.k == |c.blocks| - 1 && !t.sender.phase.Finished?
    ensures Settled(c, t)
  {
    InitialInvariant(c, s);
    RunKeepsInvariant(c, s, acts, t);
    SenderPartRuns(c, s, acts, t);
    SenderStaysOk(c, s.sender, SenderPart(acts), t.sender);
  }

  /**
   After the delivery, the waiting sender can still end with true exactly if a reply that names the
   last block can reach it, or every earlier block is stored or under way and the last one can come.
   */
  lemma WhenRecoverable(c: Transfer, s: System)
    requires Settled(c, s)
    ensures (exists acts :: EndsWith(c, s, acts, true)) <==> ReplyCanArrive(c, s) || BlocksCanArrive(c, s)
  {
    if ReplyCanArrive(c, s) {
      var acts := ReplyPathEnds(c, s);
    } else if BlocksCanArrive(c, s) {
      var acts := BlockPathEnds(c, s);
    } else {
      forall acts ensures !EndsWith(c, s, acts, true) {
        HopelessRun(c, s, acts);
      }
    }
  }

  /** A lost confirmation can be made up for exactly if there is one block and a retry for it. */
  lemma LostConfirmationIsFinal(c: Transfer)
    requires Proper(c) && c.blocks != [] && c.maxRetry >= 0
    ensures (exists acts :: EndsWith(c, Unconfirmed(c), acts, true)) <==> |c.blocks| == 1 && c.maxRetry > 0
  {
    var s := Unconfirmed(c);
    assert Settled(c, s);
    WhenRecoverable(c, s);
    if |c.blocks| > 1 {
      assert !BlockCanArrive(c, s, 0);
    } else {
      assert EarlierCanArrive(c, s);
    }
  }
}
