/**
 The two ends of the file transfer as they run (node/src/FileTopic.cpp): the loops that send a
 file block by block and wait for replies, and the callback that stores, merges and answers.
 Each is proved against the steps of FileTransfer.
 */
module FileTopic {
  import opened Collections
  import opened FileSplit
  import opened FileTiming
  import opened FileTransfer

  /** The messages are those of the blocks with these numbers. */
  ghost predicate SentAs(c: Transfer, xs: seq<nat>, ds: seq<FileData>) {
    |xs| == |ds| && forall i :: 0 <= i < |xs| ==> xs[i] < |c.blocks| && ds[i] == c.Message(xs[i])
  }

  lemma Extend(c: Transfer, s: Sender, acts: seq<SenderAction>, t: Sender, a: SenderAction, u: Sender)
    requires SenderRun(c, s, acts) == Some(t) && SenderStep(c, t, a) == Some(u)
    ensures SenderRun(c, s, acts + [a]) == Some(u)
    ensures Published(c, s, acts + [a]) == Published(c, s, acts) + if a.Publish? then [t.k] else []
  {
    RunAppend(c, s, acts, t, [a]);
    assert SenderRun(c, t, [a]) == SenderRun(c, u, []);
    assert Published(c, t, [a]) == (if a.Publish? then [t.k] else []) + Published(c, u, []);
  }

  /** The actions lead from s to t, and what they publish is what was added to the messages sent. */
  ghost predicate Follows(c: Transfer, s: Sender, acts: seq<SenderAction>, t: Sender,
                          before: seq<FileData>, after: seq<FileData>)
  {
    SenderRun(c, s, acts) == Some(t) && before <= after && SentAs(c, Published(c, s, acts), after[|before|..])
  }

  lemma FollowsOn(c: Transfer, s: Sender, acts: seq<SenderAction>, t: Sender, more: seq<SenderAction>, u: Sender,
                  d0: seq<FileData>, d1: seq<FileData>, d2: seq<FileData>)
    requires Follows(c, s, acts, t, d0, d1) && Follows(c, t, more, u, d1, d2)
    ensures Follows(c, s, acts + more, u, d0, d2)
  {
    RunAppend(c, s, acts, t, more);
    assert d2[|d0|..] == d1[|d0|..] + d2[|d1|..];
  }

  lemma FollowsQuietly(c: Transfer, s: Sender, acts: seq<SenderAction>, t: Sender, ds: seq<FileData>)
    requires SenderRun(c, s, acts) == Some(t) && Published(c, s, acts) == []
    ensures Follows(c, s, acts, t, ds, ds)
  {
    assert ds[|ds|..] == [];
  }

  lemma FollowsPublish(c: Transfer, s: Sender, ok: bool, t: Sender, ds: seq<FileData>, d: FileData)
    requires SenderStep(c, s, SenderAction.Publish(ok)) == Some(t) && d == c.Message(s.k)
    ensures Follows(c, s, [SenderAction.Publish(ok)], t, ds, ds + [d])
  {
    Extend(c, s, [], s, SenderAction.Publish(ok), t);
    assert [] + [SenderAction.Publish(ok)] == [SenderAction.Publish(ok)];
    assert (ds + [d])[|ds|..] == [d];
  }

  lemma FollowsStart(c: Transfer, s: Sender, ds: seq<FileData>)
    ensures Follows(c, s, [], s, ds, ds)
  {
    assert ds[|ds|..] == [];
  }

  /**
   The sending end. What its surroundings do at each point is arbitrary: replies come in through
   the reply callback, a put can fail, and a wait can take longer than asked for.
   */
  class FileSender {
    const splitSize: nat
    const timing: Timing
    const around: Surroundings
    var tick: nat
    var now: nat
    var replyQueue: seq<Reply>
    var sent: seq<FileData>

    constructor (splitSize: nat, timing: Timing, around: Surroundings)
      ensures this.splitSize == splitSize && this.timing == timing && this.around == around
      ensures tick == 0 && now == 0 && replyQueue == [] && sent == []
    {
      this.splitSize, this.timing, this.around := splitSize, timing, around;
      tick, now, replyQueue, sent := 0, 0, [], [];
    }

    method HandleReply(reply: Reply)
      modifies this`replyQueue
      ensures replyQueue == old(replyQueue) + [reply]
      ensures forall c: Transfer, s: Sender :: s.queue == old(replyQueue) ==>
                SenderStep(c, s, Arrive(reply)) == Some(s.(queue := replyQueue))
    {
      replyQueue := replyQueue + [reply];
    }

    /** The reply callback runs for everything that has come in. */
    method Receive(ghost c: Transfer, ghost s: Sender) returns (ghost acts: seq<SenderAction>)
      requires s.queue == replyQueue
      modifies this`tick, this`replyQueue
      ensures SenderRun(c, s, acts) == Some(s.(queue := replyQueue)) && Published(c, s, acts) == []
      ensures replyQueue == old(replyQueue) + around.arrivals(old(tick)) && tick == old(tick) + 1
    {
      var incoming := around.arrivals(tick);
      tick := tick + 1;
      acts := [];
      for i := 0 to |incoming|
        invariant replyQueue == old(replyQueue) + incoming[..i] && tick == old(tick) + 1
        invariant SenderRun(c, s, acts) == Some(s.(queue := replyQueue)) && Published(c, s, acts) == []
      {
        ghost var t := s.(queue := replyQueue);
        HandleReply(incoming[i]);
        Extend(c, s, acts, t, Arrive(incoming[i]), s.(queue := replyQueue));
        acts := acts + [Arrive(incoming[i])];
      }
      assert incoming[..|incoming|] == incoming;
    }

    method ClearReplies()
      modifies this`replyQueue
      ensures replyQueue == []
    {
      while replyQueue != []
        decreases |replyQueue|
      {
        replyQueue := replyQueue[1..];
      }
    }

    method SendFileData(d: FileData) returns (ok: bool)
      modifies this`tick, this`sent
      ensures sent == old(sent) + [d] && ok == around.putOk(old(tick)) && tick == old(tick) + 1
    {
      sent := sent + [d];
      ok := around.putOk(tick);
      tick := tick + 1;
    }

    /** One poll: lets replies in and takes the oldest, which answers if it names the block. */
    method PollReplies(ghost c: Transfer, ghost s: Sender, nCount: nat)
      returns (valid: bool, ghost t: Sender, ghost acts: seq<SenderAction>)
      requires s.phase == Waiting && s.k == nCount < |c.blocks| && s.queue == replyQueue
      modifies this`tick, this`replyQueue
      ensures SenderRun(c, s, acts) == Some(t) && Published(c, s, acts) == []
      ensures t == if valid then Answered(c, s.(queue := replyQueue)) else s.(queue := replyQueue)
      ensures var found := old(replyQueue) + around.arrivals(old(tick));
              replyQueue == Rest(found) && (valid <==> found != [] && found[0].blockSeq == nCount)
      ensures tick == old(tick) + 1
    {
      acts := Receive(c, s);
      ghost var polled := s.(queue := replyQueue);
      t, valid := polled, false;
      if replyQueue != [] {
        var reply := replyQueue[0];
        replyQueue := replyQueue[1..];
        valid := reply.blockSeq == nCount;
        ghost var rest := s.(queue := replyQueue);
        t := if valid then Answered(c, rest) else rest;
        Extend(c, s, acts, polled, Poll, t);
        acts := acts + [Poll];
      }
    }

    /** Polls the replies every 10 ms until one is for this block or the time is over. */
    method PollUntilAnswered(ghost c: Transfer, ghost s: Sender, nCount: nat, timeout: int)
      returns (valid: bool, ghost t: Sender, ghost acts: seq<SenderAction>)
      requires s.phase == Waiting && s.k == nCount < |c.blocks| && s.queue == replyQueue
      modifies this`tick, this`now, this`replyQueue
      ensures SenderRun(c, s, acts) == Some(t) && Published(c, s, acts) == []
      ensures t == if valid then Answered(c, s.(queue := replyQueue)) else Retried(c, s.(queue := replyQueue))
      ensures Outcome(valid, tick) == Wait(around, old(tick), old(replyQueue), nCount, timeout)
      ensures if valid then now - old(now) < timeout else now - old(now) >= timeout
    {
      var startTime := now;
      ghost var ending := Wait(around, tick, replyQueue, nCount, timeout);
      t, acts := s, [];
      while now - startTime < timeout
        invariant ending == Wait(around, tick, replyQueue, nCount, timeout - (now - startTime))
        invariant t == s.(queue := replyQueue) && SenderRun(c, s, acts) == Some(t) && Published(c, s, acts) == []
        decreases timeout - (now - startTime)
      {
        ghost var before := t;
        ghost var more;
        valid, t, more := PollReplies(c, before, nCount);
        RunAppend(c, s, acts, before, more);
        acts := acts + more;
        if valid {
          return;
        }
        now := now + 10 + around.delay(tick);
      }
      ghost var waited := t;
      t := Retried(c, waited);
      Extend(c, s, acts, waited, Timeout, t);
      acts := acts + [Timeout];
      valid := false;
    }

    /**
     Waits for a reply to this block: it is answered exactly if within the time such a reply gets to the
     front of the queue, and reports a timeout only after the whole time.
     */
    method WaitForReply(ghost c: Transfer, ghost s: Sender, nCount: nat, timeout: int)
      returns (valid: bool, ghost t: Sender, ghost acts: seq<SenderAction>)
      requires s.phase == Waiting && s.k == nCount < |c.blocks| && s.queue == replyQueue
      modifies this`tick, this`now, this`replyQueue
      ensures SenderRun(c, s, acts) == Some(t) && Published(c, s, acts) == []
      ensures t == if valid then Answered(c, s.(queue := replyQueue)) else Retried(c, s.(queue := replyQueue))
      ensures valid <==> HeardInTime(around, old(tick), old(replyQueue), nCount, timeout)
      ensures Outcome(valid, tick) == Wait(around, old(tick), old(replyQueue), nCount, timeout)
      ensures if valid then now - old(now) < timeout else now - old(now) >= timeout
    {
      valid, t, acts := PollUntilAnswered(c, s, nCount, timeout);
      WaitMeans(around, old(tick), old(replyQueue), nCount, timeout);
    }

    /** One attempt to publish a block, after the replies to earlier ones are thrown away. */
    method PublishBlock(ghost c: Transfer, ghost s: Sender, d: FileData)
      returns (ok: bool, ghost t: Sender, ghost acts: seq<SenderAction>)
      requires s.phase == Ready && s.queue == replyQueue && s.k < |c.blocks| && d == c.Message(s.k)
      modifies this`tick, this`replyQueue, this`sent
      ensures tick == old(tick) + 2 && replyQueue == around.arrivals(old(tick)) && ok == around.putOk(old(tick) + 1)
      ensures Follows(c, s, acts, t, old(sent), sent)
      ensures t == if ok then s.(phase := Waiting, queue := replyQueue) else Retried(c, s.(queue := replyQueue))
    {
      ghost var cleared := s.(phase := Cleared, queue := []);
      ClearReplies();
      Extend(c, s, [], s, Clear, cleared);
      assert [] + [Clear] == [Clear];
      ghost var more := Receive(c, cleared);
      RunAppend(c, s, [Clear], cleared, more);
      ghost var filled := cleared.(queue := replyQueue);
      FollowsQuietly(c, s, [Clear] + more, filled, sent);

      ghost var before := sent;
      ok := SendFileData(d);
      t := SenderStep(c, filled, SenderAction.Publish(ok)).value;
      FollowsPublish(c, filled, ok, t, before, d);
      FollowsOn(c, s, [Clear] + more, filled, [SenderAction.Publish(ok)], t, before, before, sent);
      acts := [Clear] + more + [SenderAction.Publish(ok)];
    }

    /** One attempt at a block: publishes it and, if that works, waits for a reply. */
    method TryBlock(ghost c: Transfer, ghost s: Sender, d: FileData)
      returns (valid: bool, ghost t: Sender, ghost acts: seq<SenderAction>)
      requires s.phase == Ready && s.queue == replyQueue && s.k < |c.blocks| && d == c.Message(s.k)
      modifies this`tick, this`now, this`replyQueue, this`sent
      ensures Follows(c, s, acts, t, old(sent), sent)
      ensures t == if valid then Answered(c, s.(queue := replyQueue)) else Retried(c, s.(queue := replyQueue))
      ensures Outcome(valid, tick) == Attempt(around, old(tick), s.k, TimeoutOf(timing, |c.blocks|, s.k))
    {
      var ok;
      ok, t, acts := PublishBlock(c, s, d);
      valid := false;
      if ok {
        var timeout := if d.isEnd then timing.blockLastTimeout * 1000 else timing.blockTimeout * 1000;
        ghost var waiting := t;
        ghost var more;
        valid, t, more := WaitForReply(c, waiting, d.blockSeq, timeout);
        FollowsQuietly(c, waiting, more, t, sent);
        FollowsOn(c, s, acts, waiting, more, t, old(sent), sent, sent);
        acts := acts + more;
      }
    }

    /** Sends one block, again and again while the retries last; retFlag tells whether the sending is over. */
    method SendOneBlock(ghost c: Transfer, dir: TempDir, nCount: nat, fileSize: nat, fileNum: nat)
      returns (retVal: bool, retFlag: bool, ghost t: Sender, ghost acts: seq<SenderAction>)
      requires c.maxRetry == timing.maxRetry && nCount < fileNum == |c.blocks| && fileSize == |Flatten(c.blocks)|
      requires nCount in dir.files && dir.files[nCount] == c.blocks[nCount]
      modifies this`tick, this`now, this`replyQueue, this`sent
      ensures Follows(c, EnterBlock(c, nCount, old(replyQueue)), acts, t, old(sent), sent)
      ensures retFlag ==> t.phase == Finished(retVal)
      ensures !retFlag ==> !retVal && nCount + 1 < fileNum && t == EnterBlock(c, nCount + 1, replyQueue)
      ensures nCount + 1 == fileNum ==> retFlag
      ensures dir.files[nCount] != [] ==>
                var answered := if nCount + 1 == fileNum then retVal else !retFlag;
                Block(around, timing, old(tick), fileNum, nCount) == Outcome(answered, tick)
      ensures dir.files[nCount] != [] && retVal ==> nCount + 1 == fileNum
      ensures dir.files[nCount] == [] ==> retVal && retFlag && tick == old(tick) && sent == old(sent)
    {
      ghost var s := EnterBlock(c, nCount, replyQueue);
      t, acts := s, [];
      FollowsStart(c, s, sent);
      var content := dir.files[nCount];
      var d := FileData(nCount, fileNum, nCount == fileNum - 1, fileSize, content);
      if |content| > 0 {
        var retryCount := 0;
        ghost var limit := TimeoutOf(timing, fileNum, nCount);
        ghost var ending := Block(around, timing, tick, fileNum, nCount);
        while retryCount <= timing.maxRetry
          invariant ending == Attempts(around, tick, nCount, limit, timing.maxRetry - retryCount)
          invariant Follows(c, s, acts, t, old(sent), sent)
          invariant retryCount <= timing.maxRetry ==> t == Sender(nCount, retryCount, Ready, replyQueue)
          invariant retryCount > timing.maxRetry ==> t.phase == Finished(false)
          decreases timing.maxRetry - retryCount
        {
          ghost var t0, sent0 := t, sent;
          ghost var more;
          var valid;
          valid, t, more := TryBlock(c, t0, d);
          FollowsOn(c, s, acts, t0, more, t, old(sent), sent0, sent);
          acts := acts + more;
          if valid {
            if d.isEnd {
              return true, true, t, acts;
            } else {
              return false, false, t, acts;
            }
          }
          retryCount := retryCount + 1;
        }
        return false, true, t, acts;
      }
      return true, true, t, acts;
    }

    /** Cuts the file, if there is one, and sends its blocks in order. */
    method SendFile(dir: TempDir, file: Option<Bytes>)
      returns (result: bool, ghost t: Sender, ghost acts: seq<SenderAction>)
      requires 0 < splitSize && splitSize * 1024 < 0x8000_0000
      modifies this`tick, this`now, this`replyQueue, this`sent, dir
      ensures file.None? ==> !result && sent == old(sent)
      ensures result <==> file.Some? && file.value != [] &&
                          AllAnswered(around, timing, old(tick), |Blocks(file.value, 1024 * splitSize)|)
      ensures file.Some? ==>
                var c := Transfer(Blocks(file.value, 1024 * splitSize), timing.maxRetry);
                && Follows(c, Start(c, old(replyQueue)), acts, t, old(sent), sent)
                && t.phase == Finished(result)
                && |sent| - |old(sent)| <= |c.blocks| * (if timing.maxRetry < 0 then 0 else timing.maxRetry + 1)
    {
      if file.None? {
        return false, Sender(0, 0, Finished(false), []), [];
      }
      var data := file.value;
      ghost var c := Transfer(Blocks(data, 1024 * splitSize), timing.maxRetry);
      ghost var s := Start(c, replyQueue);
      dir.MakeDir();
      dir.Split(data, splitSize);
      var fileNum := |data| / (splitSize * 1024) + if |data| % (splitSize * 1024) > 0 then 1 else 0;
      BlocksAreCounted(data, 1024 * splitSize);
      BlocksCoverFile(data, 1024 * splitSize);
      t, acts := s, [];
      FollowsStart(c, s, sent);
      var nCount := 0;
      AnsweredFromMeans(around, timing, tick, fileNum, 0);
      while nCount < fileNum
        invariant nCount <= fileNum == |c.blocks|
        invariant AllAnswered(around, timing, old(tick), fileNum) <==>
                    AnsweredFrom(around, timing, tick, fileNum, nCount)
        invariant Holds(dir.files, c.blocks, 0)
        invariant fileNum == 0 ==> t.phase == Finished(false)
        invariant fileNum > 0 ==> nCount < fileNum && t == EnterBlock(c, nCount, replyQueue)
        invariant Follows(c, s, acts, t, old(sent), sent)
        decreases fileNum - nCount
      {
        ghost var t0, sent0 := t, sent;
        ghost var more;
        var retVal, retFlag;
        retVal, retFlag, t, more := SendOneBlock(c, dir, nCount, |data|, fileNum);
        FollowsOn(c, s, acts, t0, more, t, old(sent), sent0, sent);
        acts := acts + more;
        if retFlag {
          SendingIsBounded(c, old(replyQueue), acts);
          return retVal, t, acts;
        }
        nCount := nCount + 1;
      }
      SendingIsBounded(c, old(replyQueue), acts);
      return false, t, acts;
    }
  }

  /**
   Put together: if what SendFile did is the sender's part of a run of the whole system, its result
   true means that the receiver has moved out the file.
   */
  lemma SendFileIsSafe(data: Bytes, b: nat, c: Transfer, result: bool, sender: Sender, acts: seq<SenderAction>,
                       s: System, run: seq<Action>, t: System)
    requires b > 0 && c.blocks == Blocks(data, b)
    requires SenderRun(c, Start(c, s.sender.queue), acts) == Some(sender) && sender.phase == Finished(result)
    requires Initial(c, s) && Run(c, s, run) == Some(t) && SenderPart(run) == acts
    ensures result ==> t.receiver.delivered != [] && t.receiver.delivered[|t.receiver.delivered| - 1] == data
  {
    SenderPartRuns(c, s, run, t);
    TrueMeansDelivered(data, b, c, s, run, t);
  }

  /** The receiving end. */
  class FileReceiver {
    const dir: TempDir
    var replyQueue: seq<Reply>
    var delivered: seq<Bytes>

    constructor (dir: TempDir)
      ensures this.dir == dir && replyQueue == [] && delivered == []
    {
      this.dir := dir;
      replyQueue, delivered := [], [];
    }

    ghost function View(): Receiver
      reads this, dir
    {
      Receiver(dir.files, replyQueue, delivered)
    }

    /** Moves the merged file out if it has the announced size; 2 means done. */
    method MoveClearTmp(size: nat, d: FileData, reply: Reply) returns (retFlag: int)
      modifies this, dir
      ensures retFlag == 2 <==> size == d.totalSize
      ensures View() == if size == d.totalSize
                        then Receiver(map[], old(replyQueue) + [Reply(reply.blockSeq, RECEIVED, true)],
                                      old(delivered) + [old(dir.mergeOut)])
                        else old(View())
    {
      retFlag := 1;
      if size == d.totalSize {
        delivered := delivered + [dir.mergeOut];
        dir.RemoveAll();
        replyQueue := replyQueue + [reply.(state := RECEIVED, isEnd := true)];
        return 2;
      }
    }

    method HandleFileData(d: FileData)
      modifies this, dir
      ensures View() == FileTransfer.HandleFileData(old(View()), d)
    {
      dir.MakeDir();
      dir.WriteFile(d.blockSeq, d.content);
      var reply := Reply(d.blockSeq, TRANSFERRING, false);
      if d.isEnd {
        var mergeCount := 0;
        while mergeCount < 1
          invariant mergeCount == 0 ==>
                      dir.exists_ && View() == old(View()).(store := old(dir.files)[d.blockSeq := d.content])
          invariant mergeCount != 0 ==> View() == FileTransfer.HandleFileData(old(View()), d)
          decreases 1 - mergeCount
        {
          var result := dir.Merge(d.totalNum);
          mergeCount := mergeCount + 1;
          if result == 0 {
            var retFlag := MoveClearTmp(|dir.mergeOut|, d, reply);
            if retFlag == 2 {
              break;
            }
          } else if result > 0 {
            break;
          } else {
            replyQueue := replyQueue + [reply.(state := RESEND_ALL, isEnd := true)];
            break;
          }
        }
      } else {
        replyQueue := replyQueue + [reply];
      }
    }

    /**
     One round of the reply loop: the oldest reply is taken out and sent, whether or not that works.
     To the whole system this is the step that sends a reply.
     */
    method SendNextReply() returns (reply: Option<Reply>)
      modifies this`replyQueue
      ensures old(replyQueue) == [] ==> reply == None && View() == old(View())
      ensures old(replyQueue) != [] ==> reply == Some(old(replyQueue)[0])
      ensures forall c: Transfer, s: System, sent: bool :: s.receiver == old(View()) ==>
                Step(c, s, SendReply(sent)) ==
                if reply == None then None
                else Some(s.(receiver := View(),
                             replies := if sent then s.replies + multiset{reply.value} else s.replies))
    {
      reply := None;
      if replyQueue != [] {
        reply := Some(replyQueue[0]);
        replyQueue := replyQueue[1..];
      }
    }
  }
}
