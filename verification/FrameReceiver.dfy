/**
 The TCP packet receiver of cam-app/src/UserTcpServer.cpp, from the first received byte to the
 point where the payload is handed to the protobuf parser.

 A packet is a 26-byte header (0xFAEB, type, version, 15 bytes of algorithm number, message
 number, token, payload length), the payload, a CRC-16 over both, and the end code 0xECFD.
 */
module FrameReceiver {
  import opened Collections
  import opened Crc16

  const HEADER_SIZE := 26
  const TRAILER_SIZE := 4
  const BUFFER_SIZE := 65535
  const MAX_PAYLOAD := 65000
  const MAX_TRIES := 100

  // ----- Packets as byte strings -----

  datatype Header = Header(protoType: bv8, protoVersion: bv8, fusionAlNums: seq<bv8>,
                           msgNum: bv8, token: seq<bv8>, msgLength: bv32)

  /** The fixed field widths, and a length field that tells the truth. */
  ghost predicate ValidHeader(h: Header, payload: seq<bv8>) {
    |h.fusionAlNums| == 15 && |h.token| == 2 && h.msgLength as int == |payload|
  }

  /** Four bytes in network order, as a 32-bit number. */
  function Word32(a: bv8, b: bv8, c: bv8, d: bv8): bv32 {
    ((a as bv32) << 24) | ((b as bv32) << 16) | ((c as bv32) << 8) | (d as bv32)
  }

  function LengthBytes(n: bv32): (s: seq<bv8>)
    ensures |s| == 4
  {
    [(n >> 24) as bv8, ((n >> 16) & 0xFF) as bv8, ((n >> 8) & 0xFF) as bv8, (n & 0xFF) as bv8]
  }

  function MsgLength(w: seq<bv8>): nat
    requires |w| >= HEADER_SIZE
  {
    Word32(w[22], w[23], w[24], w[25]) as int
  }

  /** What a sender puts on the wire. */
  function HeaderBytes(h: Header): seq<bv8> {
    [0xFA, 0xEB, h.protoType, h.protoVersion] + h.fusionAlNums + [h.msgNum] + h.token + LengthBytes(h.msgLength)
  }

  function CheckBytes(data: seq<bv8>): (s: seq<bv8>)
    ensures |s| == 2
  {
    [HighByte(Checksum(data)), LowByte(Checksum(data))]
  }

  function Packet(h: Header, payload: seq<bv8>): seq<bv8> {
    var data := HeaderBytes(h) + payload;
    data + CheckBytes(data) + [0xEC, 0xFD]
  }

  // ----- What the handler decides once it holds all bytes -----

  datatype Verdict =
    | NoData
    | GaveUp
    | Overrun
    | BadHeader
    | BadEndCode
    | BadCheckCode
    | Payload(bytes: seq<bv8>)

  predicate HeaderOk(w: seq<bv8>)
    requires |w| >= HEADER_SIZE
  {
    Word(w[0], w[1]) == 0xFAEB && 0 < MsgLength(w) <= MAX_PAYLOAD
  }

  function CheckTrailer(w: seq<bv8>, n: nat): (v: Verdict)
    requires |w| >= HEADER_SIZE + n + TRAILER_SIZE
    ensures v.BadEndCode? || v.BadCheckCode? || v.Payload?
  {
    var e := HEADER_SIZE + n;
    if Word(w[e + 2], w[e + 3]) != 0xECFD then BadEndCode
    else if Word(w[e], w[e + 1]) != Checksum(w[..e]) then BadCheckCode
    else Payload(w[HEADER_SIZE..e])
  }

  /** The verdict on a complete byte string; GaveUp means that bytes are missing. */
  function Decide(w: seq<bv8>): Verdict {
    if w == [] then NoData
    else if |w| < HEADER_SIZE then GaveUp
    else if !HeaderOk(w) then BadHeader
    else if |w| < HEADER_SIZE + MsgLength(w) + TRAILER_SIZE then GaveUp
    else CheckTrailer(w, MsgLength(w))
  }

  /** The whole of `w` is one packet that the handler accepts. */
  predicate IsPacket(w: seq<bv8>) {
    var v := Decide(w);
    v.Payload? && |w| == HEADER_SIZE + |v.bytes| + TRAILER_SIZE
  }

  // ----- The socket -----

  /** One receive of at most `max` bytes; no bytes stands for every result of zero or less. */
  function Received(incoming: seq<seq<bv8>>, max: nat): seq<bv8> {
    if incoming == [] then []
    else if |incoming[0]| <= max then incoming[0] else incoming[0][..max]
  }

  function Pending(incoming: seq<seq<bv8>>, max: nat): seq<seq<bv8>> {
    if incoming == [] then []
    else if |incoming[0]| <= max then incoming[1..] else [incoming[0][max..]] + incoming[1..]
  }

  class Socket {
    var incoming: seq<seq<bv8>>

    constructor (incoming: seq<seq<bv8>>)
      ensures this.incoming == incoming
    {
      this.incoming := incoming;
    }

    method ReceiveBytes(buffer: array<bv8>, max: nat) returns (n: nat)
      requires max <= buffer.Length
      modifies this, buffer
      ensures n == |Received(old(incoming), max)| <= max
      ensures buffer[..n] == Received(old(incoming), max)
      ensures buffer[n..] == old(buffer[n..])
      ensures incoming == Pending(old(incoming), max)
    {
      var chunk := Received(incoming, max);
      incoming := Pending(incoming, max);
      n := |chunk|;
      forall i | 0 <= i < n {
        buffer[i] := chunk[i];
      }
    }
  }

  // ----- The receive loop and the handler, over values -----

  /** A phase ends with enough bytes, after too many receives, or by a copy past the buffer. */
  datatype Ending = Enough | TooFew | Overran

  datatype Gathered = Gathered(ending: Ending, data: seq<bv8>, rest: seq<seq<bv8>>)

  /** Receives until `limit` bytes are there; the receive after the hundredth fails the phase. */
  function Gather(data: seq<bv8>, limit: nat, incoming: seq<seq<bv8>>, tries: nat): Gathered
    requires tries <= MAX_TRIES
    decreases MAX_TRIES - tries
  {
    if |data| >= limit then Gathered(Enough, data, incoming)
    else
      var data' := data + Received(incoming, BUFFER_SIZE);
      var rest := Pending(incoming, BUFFER_SIZE);
      if |data'| > BUFFER_SIZE then Gathered(Overran, data, incoming)
      else if tries + 1 > MAX_TRIES then Gathered(TooFew, data', rest)
      else Gather(data', limit, rest, tries + 1)
  }

  /** The second phase, with at least the header in place. */
  function HandlePayload(data: seq<bv8>, incoming: seq<seq<bv8>>): (v: Verdict)
    requires |data| >= HEADER_SIZE
    ensures v == Overrun <==> Gather(data, HEADER_SIZE + MsgLength(data) + TRAILER_SIZE, incoming, 0).ending == Overran
  {
    var n := MsgLength(data);
    var g := Gather(data, HEADER_SIZE + n + TRAILER_SIZE, incoming, 0);
    if g.ending == Overran then Overrun
    else if g.ending == TooFew || |g.data| < HEADER_SIZE + n + TRAILER_SIZE then GaveUp
    else CheckTrailer(g.data, n)
  }

  /** The header is judged as soon as it is there. */
  function AfterHeader(data: seq<bv8>, rest: seq<seq<bv8>>): Verdict
    requires |data| >= HEADER_SIZE
  {
    if HeaderOk(data) then HandlePayload(data, rest) else BadHeader
  }

  function Handle(incoming: seq<seq<bv8>>): Verdict {
    var first := Received(incoming, HEADER_SIZE);
    if first == [] then NoData
    else
      var g := Gather(first, HEADER_SIZE, Pending(incoming, HEADER_SIZE), 0);
      if g.ending == Overran then Overrun
      else if g.ending == TooFew || |g.data| < HEADER_SIZE then GaveUp
      else AfterHeader(g.data, g.rest)
  }

  lemma FlattenSplit(head: seq<bv8>, tail: seq<seq<bv8>>, n: nat)
    requires n <= |head|
    ensures head[..n] + Flatten([head[n..]] + tail) == Flatten([head] + tail)
  {
    assert ([head[n..]] + tail)[1..] == tail && ([head] + tail)[1..] == tail;
    assert head[..n] + (head[n..] + Flatten(tail)) == head + Flatten(tail);
  }

  lemma OneReceive(incoming: seq<seq<bv8>>, max: nat)
    ensures Received(incoming, max) + Flatten(Pending(incoming, max)) == Flatten(incoming)
    ensures |Pending(incoming, max)| <= |incoming|
  {
    if incoming != [] && |incoming[0]| > max {
      FlattenSplit(incoming[0], incoming[1..], max);
      assert incoming == [incoming[0]] + incoming[1..];
    }
  }

  // ----- How many receives a phase takes -----

  /** The bytes of the next n receives. */
  function Reads(incoming: seq<seq<bv8>>, n: nat): seq<bv8>
    decreases n
  {
    if n == 0 then [] else Received(incoming, BUFFER_SIZE) + Reads(Pending(incoming, BUFFER_SIZE), n - 1)
  }

  /** What is left after the next n receives. */
  function After(incoming: seq<seq<bv8>>, n: nat): seq<seq<bv8>>
    decreases n
  {
    if n == 0 then incoming else After(Pending(incoming, BUFFER_SIZE), n - 1)
  }

  lemma Assoc(a: seq<bv8>, b: seq<bv8>, c: seq<bv8>)
    ensures (a + b) + c == a + (b + c)
  {
  }

  lemma {:induction false} ReadsSplit(incoming: seq<seq<bv8>>, m: nat, n: nat)
    ensures Reads(incoming, m + n) == Reads(incoming, m) + Reads(After(incoming, m), n)
    decreases m
  {
    if m > 0 {
      ReadsSplit(Pending(incoming, BUFFER_SIZE), m - 1, n);
    }
  }

  /** If no piece is larger than the buffer, n receives bring the first n pieces. */
  lemma {:induction false} ReadsArePieces(incoming: seq<seq<bv8>>, n: nat)
    requires forall i :: 0 <= i < |incoming| ==> |incoming[i]| <= BUFFER_SIZE
    ensures Reads(incoming, n) == Flatten(incoming[..Min(n, |incoming|)])
    decreases n
  {
    if n > 0 {
      if incoming == [] {
        ReadsArePieces([], n - 1);
      } else {
        ReadsArePieces(incoming[1..], n - 1);
        var pieces := incoming[..Min(n, |incoming|)];
        assert pieces[1..] == incoming[1..][..Min(n - 1, |incoming| - 1)];
      }
    }
  }

  /** The number of receives, at most k, until `limit` bytes are there. */
  function Needed(have: nat, limit: nat, incoming: seq<seq<bv8>>, k: nat): nat
    decreases k
  {
    if have >= limit || k == 0 then 0
    else 1 + Needed(have + |Received(incoming, BUFFER_SIZE)|, limit, Pending(incoming, BUFFER_SIZE), k - 1)
  }

  lemma {:induction false} NeededIsLeast(have: nat, limit: nat, incoming: seq<seq<bv8>>, k: nat)
    ensures var n := Needed(have, limit, incoming, k);
            && n <= k
            && (n < k ==> have + |Reads(incoming, n)| >= limit)
            && (forall j: nat :: j < n ==> have + |Reads(incoming, j)| < limit)
    decreases k
  {
    if have < limit && k > 0 {
      var now, later := Received(incoming, BUFFER_SIZE), Pending(incoming, BUFFER_SIZE);
      NeededIsLeast(have + |now|, limit, later, k - 1);
      forall j: nat | j < Needed(have, limit, incoming, k) ensures have + |Reads(incoming, j)| < limit {
        if j > 0 {
          assert have + |now| + |Reads(later, j - 1)| < limit;
        }
      }
    }
  }

  /** One of the next k receives comes while bytes are missing, and would not fit the buffer. */
  ghost predicate Overruns(have: nat, limit: nat, incoming: seq<seq<bv8>>, k: nat) {
    exists n: nat :: n < k && have + |Reads(incoming, n)| < limit && have + |Reads(incoming, n + 1)| > BUFFER_SIZE
  }

  lemma OverrunsLater(have: nat, limit: nat, incoming: seq<seq<bv8>>, k: nat)
    requires have < limit && k > 0 && have + |Received(incoming, BUFFER_SIZE)| <= BUFFER_SIZE
    ensures Overruns(have, limit, incoming, k)
       <==> Overruns(have + |Received(incoming, BUFFER_SIZE)|, limit, Pending(incoming, BUFFER_SIZE), k - 1)
  {
    var now, later := Received(incoming, BUFFER_SIZE), Pending(incoming, BUFFER_SIZE);
    assert Reads(incoming, 1) == now + Reads(later, 0);
    if Overruns(have, limit, incoming, k) {
      var n: nat :| n < k && have + |Reads(incoming, n)| < limit && have + |Reads(incoming, n + 1)| > BUFFER_SIZE;
      var j: nat := n - 1;
      assert Reads(incoming, n) == now + Reads(later, j) && Reads(incoming, n + 1) == now + Reads(later, j + 1);
    }
    if Overruns(have + |now|, limit, later, k - 1) {
      var j: nat :|
        && j < k - 1 && have + |now| + |Reads(later, j)| < limit
        && have + |now| + |Reads(later, j + 1)| > BUFFER_SIZE;
      var n := j + 1;
      assert Reads(incoming, n) == now + Reads(later, j) && Reads(incoming, n + 1) == now + Reads(later, j + 1);
    }
  }

  lemma NoReceiveNoOverrun(have: nat, limit: nat, incoming: seq<seq<bv8>>, k: nat)
    requires have >= limit || k == 0
    ensures !Overruns(have, limit, incoming, k)
  {
  }

  /** What a phase with k tries left has to show for itself, in terms of the receives alone. */
  ghost predicate IsOutcome(data: seq<bv8>, limit: nat, incoming: seq<seq<bv8>>, k: nat, g: Gathered) {
    && (g.ending == Overran <==> Overruns(|data|, limit, incoming, k + 1))
    && (g.ending != Overran ==> (g.ending == Enough <==> |data| + |Reads(incoming, k)| >= limit))
    && (g.ending == Enough ==>
          var n := Needed(|data|, limit, incoming, k);
          g.data == data + Reads(incoming, n) && g.rest == After(incoming, n))
  }

  lemma OutcomeNow(data: seq<bv8>, limit: nat, incoming: seq<seq<bv8>>, k: nat)
    requires |data| >= limit
    ensures IsOutcome(data, limit, incoming, k, Gathered(Enough, data, incoming))
  {
    NoReceiveNoOverrun(|data|, limit, incoming, k + 1);
    assert data + [] == data;
  }

  lemma OutcomeOverran(data: seq<bv8>, limit: nat, incoming: seq<seq<bv8>>, k: nat, g: Gathered)
    requires |data| < limit && |data| + |Received(incoming, BUFFER_SIZE)| > BUFFER_SIZE && g.ending == Overran
    ensures IsOutcome(data, limit, incoming, k, g)
  {
    var now, later := Received(incoming, BUFFER_SIZE), Pending(incoming, BUFFER_SIZE);
    assert Reads(incoming, 1) == now + Reads(later, 0) == now;
    assert |data| + |Reads(incoming, 0)| < limit && |data| + |Reads(incoming, 0 + 1)| > BUFFER_SIZE;
  }

  lemma OutcomeTooFew(data: seq<bv8>, limit: nat, incoming: seq<seq<bv8>>, g: Gathered)
    requires |data| < limit && |data| + |Received(incoming, BUFFER_SIZE)| <= BUFFER_SIZE && g.ending == TooFew
    ensures IsOutcome(data, limit, incoming, 0, g)
  {
    var now, later := Received(incoming, BUFFER_SIZE), Pending(incoming, BUFFER_SIZE);
    OverrunsLater(|data|, limit, incoming, 1);
    NoReceiveNoOverrun(|data| + |now|, limit, later, 0);
  }

  lemma OutcomeLater(data: seq<bv8>, now: seq<bv8>, limit: nat, incoming: seq<seq<bv8>>, k: nat, g: Gathered)
    requires now == Received(incoming, BUFFER_SIZE) && |data| < limit && |data| + |now| <= BUFFER_SIZE && k > 0
    requires IsOutcome(data + now, limit, Pending(incoming, BUFFER_SIZE), k - 1, g)
    ensures IsOutcome(data, limit, incoming, k, g)
  {
    var later := Pending(incoming, BUFFER_SIZE);
    assert |data + now| == |data| + |now|;
    OverrunsLater(|data|, limit, incoming, k + 1);
    Assoc(data, now, Reads(later, Needed(|data| + |now|, limit, later, k - 1)));
  }

  /**
   A phase runs past the buffer exactly if one of its receives, up to one more than the tries left,
   comes while bytes are missing and does not fit; otherwise it succeeds exactly if the receives
   allowed bring enough bytes, and it takes no more of them than it needs.
   */
  lemma {:induction false} GatherOutcome(data: seq<bv8>, limit: nat, incoming: seq<seq<bv8>>, tries: nat)
    requires tries <= MAX_TRIES
    ensures IsOutcome(data, limit, incoming, MAX_TRIES - tries, Gather(data, limit, incoming, tries))
    decreases MAX_TRIES - tries
  {
    var k, g := MAX_TRIES - tries, Gather(data, limit, incoming, tries);
    var now, later := Received(incoming, BUFFER_SIZE), Pending(incoming, BUFFER_SIZE);
    if |data| >= limit {
      OutcomeNow(data, limit, incoming, k);
    } else if |data| + |now| > BUFFER_SIZE {
      OutcomeOverran(data, limit, incoming, k, g);
    } else if k == 0 {
      OutcomeTooFew(data, limit, incoming, g);
    } else {
      GatherOutcome(data + now, limit, later, tries + 1);
      OutcomeLater(data, now, limit, incoming, k, g);
    }
  }

  /** No byte is lost, repeated or moved. */
  lemma {:induction false} GatherKeepsBytes(data: seq<bv8>, limit: nat, incoming: seq<seq<bv8>>, tries: nat)
    requires tries <= MAX_TRIES
    ensures var g := Gather(data, limit, incoming, tries);
            && g.data + Flatten(g.rest) == data + Flatten(incoming)
            && data <= g.data
            && (g.ending == Enough ==> |g.data| >= limit)
            && (|data| <= BUFFER_SIZE ==> |g.data| <= BUFFER_SIZE)
    decreases MAX_TRIES - tries
  {
    if |data| < limit {
      var data' := data + Received(incoming, BUFFER_SIZE);
      var rest := Pending(incoming, BUFFER_SIZE);
      OneReceive(incoming, BUFFER_SIZE);
      assert data' + Flatten(rest) == data + Flatten(incoming);
      if tries + 1 <= MAX_TRIES && |data'| <= BUFFER_SIZE {
        GatherKeepsBytes(data', limit, rest, tries + 1);
      }
    }
  }

  // ----- The verdict does not depend on how the bytes are cut -----

  lemma TrailerIgnoresRest(w: seq<bv8>, more: seq<bv8>, n: nat)
    requires |w| >= HEADER_SIZE + n + TRAILER_SIZE
    ensures CheckTrailer(w + more, n) == CheckTrailer(w, n)
  {
    var e := HEADER_SIZE + n;
    assert (w + more)[..e] == w[..e];
    assert (w + more)[HEADER_SIZE..e] == w[HEADER_SIZE..e];
  }

  lemma HeaderIgnoresRest(w: seq<bv8>, all: seq<bv8>)
    requires HEADER_SIZE <= |w| && w <= all
    ensures HeaderOk(all) == HeaderOk(w) && MsgLength(all) == MsgLength(w)
  {
  }

  /** How many bytes there must be before a byte string is judged. */
  function Wanted(all: seq<bv8>): nat {
    if |all| < HEADER_SIZE || !HeaderOk(all) then HEADER_SIZE else HEADER_SIZE + MsgLength(all) + TRAILER_SIZE
  }

  /** The first receive and a hundred more bring the header; a hundred after those that it took bring the rest. */
  predicate InTime(incoming: seq<seq<bv8>>) {
    var first, rest := Received(incoming, HEADER_SIZE), Pending(incoming, HEADER_SIZE);
    var m := Needed(|first|, HEADER_SIZE, rest, MAX_TRIES);
    && |first| + |Reads(rest, MAX_TRIES)| >= HEADER_SIZE
    && |first| + |Reads(rest, m + MAX_TRIES)| >= Wanted(Flatten(incoming))
  }

  /** The second phase gives the verdict on all bytes if they come in time. */
  lemma PayloadPhase(data: seq<bv8>, incoming: seq<seq<bv8>>)
    requires |data| >= HEADER_SIZE && HeaderOk(data) && HandlePayload(data, incoming) != Overrun
    ensures var all := data + Flatten(incoming);
            HandlePayload(data, incoming) ==
            if |data| + |Reads(incoming, MAX_TRIES)| >= Wanted(all) then Decide(all) else GaveUp
  {
    var all, n := data + Flatten(incoming), MsgLength(data);
    var limit := HEADER_SIZE + n + TRAILER_SIZE;
    HeaderIgnoresRest(data, all);
    GatherOutcome(data, limit, incoming, 0);
    GatherKeepsBytes(data, limit, incoming, 0);
    var g := Gather(data, limit, incoming, 0);
    if g.ending == Enough {
      assert all == g.data + Flatten(g.rest);
      TrailerIgnoresRest(g.data, Flatten(g.rest), n);
    }
  }

  lemma HeaderPhase(first: seq<bv8>, rest: seq<seq<bv8>>, all: seq<bv8>)
    requires all == first + Flatten(rest)
    ensures var g, m := Gather(first, HEADER_SIZE, rest, 0), Needed(|first|, HEADER_SIZE, rest, MAX_TRIES);
            g.ending == Enough ==>
              && |g.data| >= HEADER_SIZE && all == g.data + Flatten(g.rest)
              && |g.data| + |Reads(g.rest, MAX_TRIES)| == |first| + |Reads(rest, m + MAX_TRIES)|
              && HeaderOk(all) == HeaderOk(g.data)
              && |g.data| == |first| + |Reads(rest, m)|
  {
    GatherOutcome(first, HEADER_SIZE, rest, 0);
    GatherKeepsBytes(first, HEADER_SIZE, rest, 0);
    var g, m := Gather(first, HEADER_SIZE, rest, 0), Needed(|first|, HEADER_SIZE, rest, MAX_TRIES);
    if g.ending == Enough {
      ReadsSplit(rest, m, MAX_TRIES);
      HeaderIgnoresRest(g.data, all);
    }
  }

  lemma BadHeaderDecides(data: seq<bv8>, all: seq<bv8>)
    requires HEADER_SIZE <= |data| && data <= all && !HeaderOk(data)
    ensures Decide(all) == BadHeader && Wanted(all) == HEADER_SIZE
  {
    HeaderIgnoresRest(data, all);
  }

  /** Once the header is there. */
  lemma HeaderDecides(data: seq<bv8>, rest: seq<seq<bv8>>, all: seq<bv8>)
    requires |data| >= HEADER_SIZE && all == data + Flatten(rest) && AfterHeader(data, rest) != Overrun
    ensures AfterHeader(data, rest) == if |data| + |Reads(rest, MAX_TRIES)| >= Wanted(all) then Decide(all) else GaveUp
  {
    if HeaderOk(data) {
      PayloadPhase(data, rest);
    } else {
      BadHeaderDecides(data, all);
    }
  }

  lemma WhenInTime(incoming: seq<seq<bv8>>, first: seq<bv8>, rest: seq<seq<bv8>>, g: Gathered)
    requires first == Received(incoming, HEADER_SIZE) && rest == Pending(incoming, HEADER_SIZE)
    requires g == Gather(first, HEADER_SIZE, rest, 0) && g.ending != Overran
    ensures g.ending == TooFew ==> !InTime(incoming)
    ensures g.ending == Enough ==>
              && |g.data| >= HEADER_SIZE && Flatten(incoming) == g.data + Flatten(g.rest)
              && (InTime(incoming) <==> |g.data| + |Reads(g.rest, MAX_TRIES)| >= Wanted(Flatten(incoming)))
  {
    OneReceive(incoming, HEADER_SIZE);
    GatherOutcome(first, HEADER_SIZE, rest, 0);
    HeaderPhase(first, rest, Flatten(incoming));
  }

  /**
   For every way of cutting the bytes that stays inside the buffer: the verdict is that of the whole
   byte string if each phase gets its bytes in time, and the handler gives up exactly if not.
   */
  lemma HandleIsDecide(incoming: seq<seq<bv8>>)
    requires Handle(incoming) != Overrun
    ensures Handle(incoming) ==
            if Received(incoming, HEADER_SIZE) == [] then NoData
            else if InTime(incoming) then Decide(Flatten(incoming))
            else GaveUp
  {
    var first, rest := Received(incoming, HEADER_SIZE), Pending(incoming, HEADER_SIZE);
    if first != [] {
      var g := Gather(first, HEADER_SIZE, rest, 0);
      WhenInTime(incoming, first, rest, g);
      if g.ending == Enough {
        HeaderDecides(g.data, g.rest, Flatten(incoming));
      }
    }
  }

  /** Two ways of cutting the same bytes lead to the same verdict, if the bytes come in time and fit. */
  lemma ChunkingDoesNotMatter(one: seq<seq<bv8>>, other: seq<seq<bv8>>)
    requires Flatten(one) == Flatten(other)
    requires Handle(one) != Overrun && InTime(one) && Received(one, HEADER_SIZE) != []
    requires Handle(other) != Overrun && InTime(other) && Received(other, HEADER_SIZE) != []
    ensures Handle(one) == Handle(other)
  {
    HandleIsDecide(one);
    HandleIsDecide(other);
  }

  // ----- Parser and printer -----

  lemma Word32OfBytes(n: bv32)
    ensures Word32((n >> 24) as bv8, ((n >> 16) & 0xFF) as bv8, ((n >> 8) & 0xFF) as bv8, (n & 0xFF) as bv8) == n
  {
  }

  lemma BytesOfWord32(a: bv8, b: bv8, c: bv8, d: bv8, n: bv32)
    requires n == Word32(a, b, c, d)
    ensures LengthBytes(n) == [a, b, c, d]
  {
  }

  lemma WordOfHalves(r: bv16)
    ensures Word((r >> 8) as bv8, (r & 0xFF) as bv8) == r
  {
  }

  lemma HalvesOfWord(hi: bv8, lo: bv8, r: bv16)
    requires r == Word(hi, lo)
    ensures HighByte(r) == hi && LowByte(r) == lo
  {
  }

  lemma HeaderLayout(h: Header, head: seq<bv8>)
    requires |h.fusionAlNums| == 15 && |h.token| == 2 && head == HeaderBytes(h)
    ensures |head| == HEADER_SIZE && head[0] == 0xFA && head[1] == 0xEB
    ensures head[22..26] == LengthBytes(h.msgLength)
  {
  }

  lemma LengthField(w: seq<bv8>, n: bv32)
    requires |w| >= HEADER_SIZE && w[22..26] == LengthBytes(n)
    ensures MsgLength(w) == n as int
  {
    var b := LengthBytes(n);
    assert w[22] == b[0] && w[23] == b[1] && w[24] == b[2] && w[25] == b[3];
    Word32OfBytes(n);
  }

  lemma PacketLayout(head: seq<bv8>, payload: seq<bv8>, check: seq<bv8>, more: seq<bv8>, w: seq<bv8>, e: nat)
    requires |head| == HEADER_SIZE && |check| == 2 && e == HEADER_SIZE + |payload|
    requires w == head + payload + check + [0xEC, 0xFD] + more
    ensures |w| >= e + TRAILER_SIZE && w[..HEADER_SIZE] == head && w[..e] == head + payload
    ensures w[HEADER_SIZE..e] == payload
    ensures w[e] == check[0] && w[e + 1] == check[1] && w[e + 2] == 0xEC && w[e + 3] == 0xFD
  {
    assert w[..e] == head + payload;
  }

  lemma CheckCode(data: seq<bv8>, check: seq<bv8>)
    requires check == CheckBytes(data)
    ensures Word(check[0], check[1]) == Checksum(data)
  {
    WordOfHalves(Checksum(data));
  }

  lemma Constants()
    ensures Word(0xFA, 0xEB) == 0xFAEB && Word(0xEC, 0xFD) == 0xECFD
  {
  }

  lemma GoodPacketAccepted(w: seq<bv8>, payload: seq<bv8>)
    requires var e := HEADER_SIZE + |payload|;
             && |w| >= e + TRAILER_SIZE && HeaderOk(w) && MsgLength(w) == |payload|
             && Word(w[e + 2], w[e + 3]) == 0xECFD && Word(w[e], w[e + 1]) == Checksum(w[..e])
             && w[HEADER_SIZE..e] == payload
    ensures Decide(w) == Payload(payload)
  {
  }

  lemma HeaderInside(w: seq<bv8>, head: seq<bv8>)
    requires |head| == HEADER_SIZE <= |w| && w[..HEADER_SIZE] == head
    ensures w[0] == head[0] && w[1] == head[1] && w[22..26] == head[22..26]
  {
  }

  lemma PartsAreAccepted(head: seq<bv8>, n: bv32, payload: seq<bv8>, check: seq<bv8>, more: seq<bv8>, w: seq<bv8>)
    requires |head| == HEADER_SIZE && head[0] == 0xFA && head[1] == 0xEB && head[22..26] == LengthBytes(n)
    requires n as int == |payload| && 0 < |payload| <= MAX_PAYLOAD
    requires |check| == 2 && Word(check[0], check[1]) == Checksum(head + payload)
    requires w == head + payload + check + [0xEC, 0xFD] + more
    ensures Decide(w) == Payload(payload)
  {
    PacketLayout(head, payload, check, more, w, HEADER_SIZE + |payload|);
    HeaderInside(w, head);
    LengthField(w, n);
    Constants();
    GoodPacketAccepted(w, payload);
  }

  lemma PacketParts(h: Header, payload: seq<bv8>, head: seq<bv8>, check: seq<bv8>)
    requires head == HeaderBytes(h) && check == CheckBytes(head + payload)
    ensures Packet(h, payload) == head + payload + check + [0xEC, 0xFD]
  {
  }

  /** Every packet with a true length field is accepted and gives back its payload. */
  lemma PacketIsAccepted(h: Header, payload: seq<bv8>, more: seq<bv8>)
    requires ValidHeader(h, payload) && 0 < |payload| <= MAX_PAYLOAD
    ensures Decide(Packet(h, payload) + more) == Payload(payload)
  {
    var head := HeaderBytes(h);
    var check := CheckBytes(head + payload);
    HeaderLayout(h, head);
    CheckCode(head + payload, check);
    PacketParts(h, payload, head, check);
    PartsAreAccepted(head, h.msgLength, payload, check, more, head + payload + check + [0xEC, 0xFD] + more);
  }

  function ParseHeader(w: seq<bv8>): Header
    requires |w| >= HEADER_SIZE
  {
    Header(w[2], w[3], w[4..19], w[19], w[20..22], Word32(w[22], w[23], w[24], w[25]))
  }

  lemma TrailerFacts(w: seq<bv8>, n: nat, e: nat)
    requires e == HEADER_SIZE + n && |w| >= e + TRAILER_SIZE && CheckTrailer(w, n).Payload?
    ensures Word(w[e + 2], w[e + 3]) == 0xECFD && Word(w[e], w[e + 1]) == Checksum(w[..e])
    ensures CheckTrailer(w, n).bytes == w[HEADER_SIZE..e]
  {
  }

  lemma AcceptedLength(w: seq<bv8>, n: nat)
    requires Decide(w).Payload? && n == |Decide(w).bytes|
    ensures |w| >= HEADER_SIZE && HeaderOk(w) && MsgLength(w) == n
    ensures |w| >= HEADER_SIZE + n + TRAILER_SIZE
    ensures Decide(w) == CheckTrailer(w, n)
  {
  }

  lemma AcceptedFacts(w: seq<bv8>, n: nat, e: nat)
    requires IsPacket(w) && n == |Decide(w).bytes| && e == HEADER_SIZE + n
    ensures |w| == e + TRAILER_SIZE && MsgLength(w) == n && 0 < n <= MAX_PAYLOAD
    ensures Word(w[0], w[1]) == 0xFAEB && Word(w[e + 2], w[e + 3]) == 0xECFD
    ensures Word(w[e], w[e + 1]) == Checksum(w[..e]) && Decide(w).bytes == w[HEADER_SIZE..e]
  {
    AcceptedLength(w, n);
    TrailerFacts(w, n, e);
  }

  lemma AcceptedBytes(w: seq<bv8>, n: nat, e: nat)
    requires IsPacket(w) && n == |Decide(w).bytes| && e == HEADER_SIZE + n
    ensures |w| == e + TRAILER_SIZE && w[0] == 0xFA && w[1] == 0xEB
    ensures w[e..] == CheckBytes(w[..e]) + [0xEC, 0xFD]
  {
    AcceptedFacts(w, n, e);
    HalvesOfWord(w[0], w[1], 0xFAEB);
    HalvesOfWord(w[e], w[e + 1], Checksum(w[..e]));
    HalvesOfWord(w[e + 2], w[e + 3], 0xECFD);
    assert w[e..] == [w[e], w[e + 1]] + [w[e + 2], w[e + 3]];
  }

  lemma HeaderReprints(w: seq<bv8>)
    requires |w| >= HEADER_SIZE && w[0] == 0xFA && w[1] == 0xEB
    ensures HeaderBytes(ParseHeader(w)) == w[..HEADER_SIZE]
  {
    BytesOfWord32(w[22], w[23], w[24], w[25], ParseHeader(w).msgLength);
    assert w[..26] == [w[0], w[1], w[2], w[3]] + w[4..19] + [w[19]] + w[20..22] + [w[22], w[23], w[24], w[25]];
  }

  /** What is accepted as one whole packet is exactly what a sender can print. */
  lemma AcceptedIsPacket(w: seq<bv8>)
    requires IsPacket(w)
    ensures ValidHeader(ParseHeader(w), Decide(w).bytes)
    ensures 0 < |Decide(w).bytes| <= MAX_PAYLOAD
    ensures w == Packet(ParseHeader(w), Decide(w).bytes)
  {
    var h, payload := ParseHeader(w), Decide(w).bytes;
    var n := |payload|;
    var e := HEADER_SIZE + n;
    AcceptedFacts(w, n, e);
    AcceptedBytes(w, n, e);
    HeaderReprints(w);
    assert w[..e] == w[..HEADER_SIZE] + payload;
    assert w == w[..e] + w[e..];
    assert w == w[..e] + CheckBytes(w[..e]) + [0xEC, 0xFD];
  }

  lemma NetworkOrder(a: bv8, b: bv8, c: bv8, d: bv8)
    ensures Word32(a, b, c, d) ==
            0x1000000 * (a as bv32) + 0x10000 * (b as bv32) + 0x100 * (c as bv32) + (d as bv32)
  {
  }

  lemma LengthBack(n: bv32, b: seq<bv8>)
    requires b == LengthBytes(n)
    ensures n == 0x1000000 * (b[0] as bv32) + 0x10000 * (b[1] as bv32) + 0x100 * (b[2] as bv32) + (b[3] as bv32)
  {
    Word32OfBytes(n);
    NetworkOrder(b[0], b[1], b[2], b[3]);
  }

  /** Where the header carries its fields; the length is in network order. */
  lemma FieldsOfHeader(h: Header)
    requires |h.fusionAlNums| == 15 && |h.token| == 2
    ensures var w := HeaderBytes(h);
            && |w| == 26 && w[0] == 0xFA && w[1] == 0xEB && w[2] == h.protoType && w[3] == h.protoVersion
            && w[4..19] == h.fusionAlNums && w[19] == h.msgNum && w[20..22] == h.token
            && h.msgLength == 0x1000000 * (w[22] as bv32) + 0x10000 * (w[23] as bv32) + 0x100 * (w[24] as bv32)
                              + (w[25] as bv32)
  {
    var w, b := HeaderBytes(h), LengthBytes(h.msgLength);
    HeaderLayout(h, w);
    LengthBack(h.msgLength, b);
    assert w[22] == b[0] && w[23] == b[1] && w[24] == b[2] && w[25] == b[3];
  }

  lemma TwoBytesAre(hi: bv8, lo: bv8, a: bv8, b: bv8)
    ensures Word(hi, lo) == Word(a, b) <==> hi == a && lo == b
  {
  }

  /** The header is good: the mark is there and the payload has from 1 to 65000 bytes. */
  ghost predicate GoodHeader(w: seq<bv8>) {
    |w| >= 26 && w[0] == 0xFA && w[1] == 0xEB && 1 <= MsgLength(w) <= 65000
  }

  ghost predicate GoodEnd(w: seq<bv8>, n: nat) {
    |w| >= n + 30 && w[n + 28] == 0xEC && w[n + 29] == 0xFD
  }

  ghost predicate GoodCheck(w: seq<bv8>, n: nat) {
    |w| >= n + 30 && [w[n + 26], w[n + 27]] == CheckBytes(w[..n + 26])
  }

  lemma MarkAndEnd(hi: bv8, lo: bv8)
    ensures Word(hi, lo) == 0xFAEB <==> hi == 0xFA && lo == 0xEB
    ensures Word(hi, lo) == 0xECFD <==> hi == 0xEC && lo == 0xFD
  {
    Constants();
    TwoBytesAre(hi, lo, 0xFA, 0xEB);
    TwoBytesAre(hi, lo, 0xEC, 0xFD);
  }

  lemma CheckBytesMatch(hi: bv8, lo: bv8, data: seq<bv8>)
    ensures Word(hi, lo) == Checksum(data) <==> [hi, lo] == CheckBytes(data)
  {
    var check := CheckBytes(data);
    CheckCode(data, check);
    TwoBytesAre(hi, lo, check[0], check[1]);
  }

  lemma WhyTrailerFails(w: seq<bv8>, n: nat)
    requires |w| >= n + 30
    ensures CheckTrailer(w, n) ==
            if !GoodEnd(w, n) then BadEndCode else if !GoodCheck(w, n) then BadCheckCode else Payload(w[26..n + 26])
  {
    MarkAndEnd(w[n + 28], w[n + 29]);
    CheckBytesMatch(w[n + 26], w[n + 27], w[..n + 26]);
  }

  /**
   Why a byte string is not accepted: nothing came, bytes are missing, or else the first thing that is
   wrong with its header, its end code and its check code, which are looked at in this order.
   */
  lemma WhyRejected(w: seq<bv8>)
    ensures Decide(w) == NoData <==> w == []
    ensures Decide(w) == GaveUp <==> 0 < |w| < 26 || (GoodHeader(w) && |w| < MsgLength(w) + 30)
    ensures Decide(w) == BadHeader <==> |w| >= 26 && !GoodHeader(w)
    ensures |w| >= 26 && GoodHeader(w) && |w| >= MsgLength(w) + 30 ==>
              var n := MsgLength(w);
              && (Decide(w) == BadEndCode <==> !GoodEnd(w, n))
              && (Decide(w) == BadCheckCode <==> GoodEnd(w, n) && !GoodCheck(w, n))
              && (Decide(w).Payload? <==> GoodEnd(w, n) && GoodCheck(w, n))
  {
    if |w| >= 26 {
      MarkAndEnd(w[0], w[1]);
      if |w| >= MsgLength(w) + 30 {
        WhyTrailerFails(w, MsgLength(w));
      }
    }
  }

  /** The bytes begin with a packet that carries the payload. */
  ghost predicate BeginsWithPacket(w: seq<bv8>, payload: seq<bv8>) {
    exists h, more :: ValidHeader(h, payload) && w == Packet(h, payload) + more
  }

  lemma AcceptedBeginsWithPacket(w: seq<bv8>)
    requires Decide(w).Payload?
    ensures 0 < |Decide(w).bytes| <= MAX_PAYLOAD && BeginsWithPacket(w, Decide(w).bytes)
  {
    var payload := Decide(w).bytes;
    AcceptedLength(w, |payload|);
    var end := HEADER_SIZE + |payload| + TRAILER_SIZE;
    var packet, more := w[..end], w[end..];
    assert w == packet + more;
    HeaderIgnoresRest(packet, w);
    TrailerIgnoresRest(packet, more, |payload|);
    assert Decide(packet) == Decide(w);
    AcceptedIsPacket(packet);
    assert ValidHeader(ParseHeader(packet), payload) && w == Packet(ParseHeader(packet), payload) + more;
  }

  /**
   However the bytes are cut: the handler goes on to parse a payload exactly if the bytes come in time
   and begin with a packet of allowed length that carries this payload.
   */
  lemma PayloadMeansPacket(incoming: seq<seq<bv8>>, payload: seq<bv8>)
    requires Handle(incoming) != Overrun
    ensures Handle(incoming) == Payload(payload) <==>
            && Received(incoming, HEADER_SIZE) != [] && InTime(incoming)
            && 0 < |payload| <= MAX_PAYLOAD && BeginsWithPacket(Flatten(incoming), payload)
  {
    var w := Flatten(incoming);
    HandleIsDecide(incoming);
    if Decide(w) == Payload(payload) {
      AcceptedBeginsWithPacket(w);
    }
    if 0 < |payload| <= MAX_PAYLOAD && BeginsWithPacket(w, payload) {
      var h, more :| ValidHeader(h, payload) && w == Packet(h, payload) + more;
      PacketIsAccepted(h, payload, more);
    }
  }

  // ----- Inside the buffer -----

  /** What fits the buffer as a whole fits it however it is cut. */
  lemma {:induction false} GatherFits(data: seq<bv8>, limit: nat, incoming: seq<seq<bv8>>, tries: nat)
    requires tries <= MAX_TRIES && |data| + |Flatten(incoming)| <= BUFFER_SIZE
    ensures Gather(data, limit, incoming, tries).ending != Overran
    decreases MAX_TRIES - tries
  {
    OneReceive(incoming, BUFFER_SIZE);
    if |data| < limit && tries < MAX_TRIES {
      GatherFits(data + Received(incoming, BUFFER_SIZE), limit, Pending(incoming, BUFFER_SIZE), tries + 1);
    }
  }

  lemma PhaseFits(data: seq<bv8>, limit: nat, incoming: seq<seq<bv8>>)
    requires |data| + |Flatten(incoming)| <= BUFFER_SIZE
    ensures var g := Gather(data, limit, incoming, 0);
            g.ending != Overran && |g.data| + |Flatten(g.rest)| <= BUFFER_SIZE
  {
    GatherFits(data, limit, incoming, 0);
    GatherKeepsBytes(data, limit, incoming, 0);
    var g := Gather(data, limit, incoming, 0);
    assert |g.data + Flatten(g.rest)| == |data + Flatten(incoming)|;
  }

  lemma PayloadFits(data: seq<bv8>, incoming: seq<seq<bv8>>)
    requires |data| >= HEADER_SIZE && |data| + |Flatten(incoming)| <= BUFFER_SIZE
    ensures HandlePayload(data, incoming) != Overrun
  {
    var n := MsgLength(data);
    PhaseFits(data, HEADER_SIZE + n + TRAILER_SIZE, incoming);
  }

  lemma FirstReceive(incoming: seq<seq<bv8>>)
    ensures |Received(incoming, HEADER_SIZE)| + |Flatten(Pending(incoming, HEADER_SIZE))| == |Flatten(incoming)|
  {
    OneReceive(incoming, HEADER_SIZE);
    assert |Received(incoming, HEADER_SIZE) + Flatten(Pending(incoming, HEADER_SIZE))| == |Flatten(incoming)|;
  }

  lemma HandleFits(incoming: seq<seq<bv8>>)
    requires |Flatten(incoming)| <= BUFFER_SIZE
    ensures Handle(incoming) != Overrun
  {
    var first, rest := Received(incoming, HEADER_SIZE), Pending(incoming, HEADER_SIZE);
    FirstReceive(incoming);
    PhaseFits(first, HEADER_SIZE, rest);
    var g := Gather(first, HEADER_SIZE, rest, 0);
    if |g.data| >= HEADER_SIZE {
      PayloadFits(g.data, g.rest);
    }
  }

  /** A packet that comes alone never runs past the buffer, and is accepted exactly if it comes in time. */
  lemma PacketAlone(incoming: seq<seq<bv8>>)
    requires IsPacket(Flatten(incoming))
    ensures Handle(incoming) != Overrun
    ensures Handle(incoming) == Decide(Flatten(incoming)) <==>
            Received(incoming, HEADER_SIZE) != [] && InTime(incoming)
  {
    AcceptedIsPacket(Flatten(incoming));
    HandleFits(incoming);
    HandleIsDecide(incoming);
  }

  ghost predicate PiecesUpTo(incoming: seq<seq<bv8>>, m: nat) {
    forall i :: 0 <= i < |incoming| ==> |incoming[i]| <= m
  }

  // The largest size of pieces that always fit
  const SAFE_PIECE := 642

  lemma OneReceiveUpTo(incoming: seq<seq<bv8>>, max: nat)
    requires PiecesUpTo(incoming, SAFE_PIECE)
    ensures |Received(incoming, max)| <= SAFE_PIECE && PiecesUpTo(Pending(incoming, max), SAFE_PIECE)
  {
  }

  /** With small pieces, a phase ends less than one piece above its limit, and grows by one piece a receive. */
  lemma {:induction false} GatherGrows(data: seq<bv8>, limit: nat, incoming: seq<seq<bv8>>, tries: nat)
    requires tries <= MAX_TRIES && PiecesUpTo(incoming, SAFE_PIECE)
    requires limit == HEADER_SIZE || |data| + (MAX_TRIES + 1 - tries) * SAFE_PIECE <= BUFFER_SIZE
    ensures var g := Gather(data, limit, incoming, tries);
            && g.ending != Overran && PiecesUpTo(g.rest, SAFE_PIECE)
            && (g.ending == Enough ==> |g.data| == |data| || |g.data| < limit + SAFE_PIECE)
    decreases MAX_TRIES - tries
  {
    if |data| < limit {
      OneReceiveUpTo(incoming, BUFFER_SIZE);
      if tries < MAX_TRIES {
        GatherGrows(data + Received(incoming, BUFFER_SIZE), limit, Pending(incoming, BUFFER_SIZE), tries + 1);
      }
    }
  }

  lemma SmallPiecesFit(incoming: seq<seq<bv8>>)
    requires PiecesUpTo(incoming, SAFE_PIECE)
    ensures Handle(incoming) != Overrun
  {
    var first, rest := Received(incoming, HEADER_SIZE), Pending(incoming, HEADER_SIZE);
    OneReceiveUpTo(incoming, HEADER_SIZE);
    GatherGrows(first, HEADER_SIZE, rest, 0);
    var g := Gather(first, HEADER_SIZE, rest, 0);
    if g.ending == Enough && |g.data| >= HEADER_SIZE {
      GatherGrows(g.data, HEADER_SIZE + MsgLength(g.data) + TRAILER_SIZE, g.rest, 0);
    }
  }

  // Pieces of 643 bytes: what the hundred and first receive of the second phase adds does not fit

  function Copies(piece: seq<bv8>, n: nat): seq<seq<bv8>> {
    if n == 0 then [] else [piece] + Copies(piece, n - 1)
  }

  lemma {:induction false} CopiesUpTo(piece: seq<bv8>, n: nat)
    ensures PiecesUpTo(Copies(piece, n), |piece|)
  {
    if n > 0 {
      CopiesUpTo(piece, n - 1);
    }
  }

  lemma {:induction false} CopiesOverrun(data: seq<bv8>, piece: seq<bv8>, tries: nat)
    requires tries <= MAX_TRIES && |piece| == 643 && |data| == 668 + 643 * tries
    ensures Gather(data, 65030, Copies(piece, MAX_TRIES + 1 - tries), tries).ending == Overran
    decreases MAX_TRIES - tries
  {
    var incoming := Copies(piece, MAX_TRIES + 1 - tries);
    assert incoming[0] == piece && incoming[1..] == Copies(piece, MAX_TRIES - tries);
    if tries < MAX_TRIES {
      CopiesOverrun(data + piece, piece, tries + 1);
    }
  }

  lemma LongHeader() returns (head: seq<bv8>)
    ensures |head| == HEADER_SIZE && HeaderOk(head) && MsgLength(head) == 65000
  {
    var h := Header(0, 0, seq(15, _ => 0), 0, [0, 0], 65000);
    head := HeaderBytes(h);
    HeaderLayout(h, head);
    LengthField(head, 65000);
    Constants();
  }

  lemma LargePiecesOverrun() returns (incoming: seq<seq<bv8>>)
    ensures PiecesUpTo(incoming, 643) && Handle(incoming) == Overrun
  {
    var head := LongHeader();
    var piece: seq<bv8> := seq(643, _ => 0);
    var second := head[25..] + piece[..642];
    var copies := Copies(piece, MAX_TRIES + 1);
    incoming := [head[..25], second] + copies;
    CopiesUpTo(piece, MAX_TRIES + 1);
    assert incoming[1..] == [second] + copies && incoming[1..][1..] == copies;
    var data := head[..25] + second;
    assert data == head + piece[..642];
    HeaderIgnoresRest(head, data);
    assert Gather(head[..25], HEADER_SIZE, incoming[1..], 0) == Gather(data, HEADER_SIZE, copies, 1);
    assert Gather(data, HEADER_SIZE, copies, 1) == Gathered(Enough, data, copies);
    CopiesOverrun(data, piece, 0);
  }

  /**
   The handler stays inside its buffer on all inputs whose pieces have at most m bytes exactly
   if m is at most 642.
   */
  lemma WhenPiecesFit(m: nat)
    ensures (forall incoming :: PiecesUpTo(incoming, m) ==> Handle(incoming) != Overrun) <==> m <= SAFE_PIECE
  {
    if m <= SAFE_PIECE {
      forall incoming | PiecesUpTo(incoming, m) ensures Handle(incoming) != Overrun {
        assert PiecesUpTo(incoming, SAFE_PIECE);
        SmallPiecesFit(incoming);
      }
    } else {
      var incoming := LargePiecesOverrun();
      assert PiecesUpTo(incoming, m);
    }
  }

  // ----- Damage -----

  lemma ResidueOfParts(data: seq<bv8>, c1: bv8, c2: bv8, body: seq<bv8>)
    requires Word(c1, c2) == Checksum(data) && body == data + [c1, c2]
    ensures Register(INITIAL, body) == 0
  {
    CheckMatchesIffResidueZero(data, c1, c2);
  }

  /** Header, payload and check code of a packet leave the register empty. */
  lemma PacketResidue(w: seq<bv8>, body: seq<bv8>)
    requires IsPacket(w) && body == w[..|w| - 2]
    ensures Register(INITIAL, body) == 0
  {
    var n := |Decide(w).bytes|;
    var e := HEADER_SIZE + n;
    AcceptedFacts(w, n, e);
    assert w[..e] + [w[e], w[e + 1]] == body;
    ResidueOfParts(w[..e], w[e], w[e + 1], body);
  }

  lemma EndCode(w: seq<bv8>, e: nat)
    requires IsPacket(w) && e == |w| - 2
    ensures w[e..] == [0xEC, 0xFD]
  {
    var n := |Decide(w).bytes|;
    AcceptedBytes(w, n, HEADER_SIZE + n);
  }

  lemma EmptyRegisters(x: seq<bv8>, y: seq<bv8>, k: nat)
    requires Register(INITIAL, x) == 0 && Register(INITIAL, y) == 0
    requires AgreeOutside(Bits(x), Bits(y), k)
    ensures x == y
  {
    RegisterIsFeed(INITIAL, x);
    RegisterIsFeed(INITIAL, y);
    FeedBurst(INITIAL, Bits(x), Bits(y), k);
    BitsInjective(x, y);
  }

  /** No burst of up to sixteen bits, wherever it falls, turns a packet into another packet. */
  lemma BurstNeverYieldsPacket(a: seq<bv8>, b: seq<bv8>, k: nat)
    requires IsPacket(a) && IsPacket(b) && |a| == |b|
    requires AgreeOutside(Bits(a), Bits(b), k)
    ensures a == b
  {
    var e := |a| - 2;
    var x, y, end := a[..e], b[..e], a[e..];
    EndCode(a, e);
    EndCode(b, e);
    assert a == x + end && b == y + end;
    ExpandAppend(ByteBits, x, end);
    ExpandAppend(ByteBits, y, end);
    BitsLength(x);
    BitsLength(y);
    AgreeOnPrefix(Bits(a), Bits(b), Bits(x), Bits(y), k);
    PacketResidue(a, x);
    PacketResidue(b, y);
    EmptyRegisters(x, y, k);
  }

  lemma AgreeOnPrefix(a: seq<bool>, b: seq<bool>, x: seq<bool>, y: seq<bool>, k: nat)
    requires AgreeOutside(a, b, k) && x <= a && y <= b && |x| == |y|
    ensures AgreeOutside(x, y, k)
  {
    forall i | 0 <= i < |x| && !(k <= i < k + 16)
      ensures x[i] == y[i]
    {
      assert a[i] == b[i];
    }
  }

  // ----- The handler -----

  lemma GatherStep(data: seq<bv8>, limit: nat, incoming: seq<seq<bv8>>, tries: nat)
    requires tries <= MAX_TRIES && |data| < limit && Gather(data, limit, incoming, tries).ending != Overran
    ensures var now, later := Received(incoming, BUFFER_SIZE), Pending(incoming, BUFFER_SIZE);
            && |data| + |now| <= BUFFER_SIZE
            && Gather(data, limit, incoming, tries) ==
               if tries == MAX_TRIES then Gathered(TooFew, data + now, later)
               else Gather(data + now, limit, later, tries + 1)
  {
  }

  class UserServiceHandler {
    const socket: Socket
    var recvLen: nat

    constructor (socket: Socket)
      ensures this.socket == socket
    {
      this.socket := socket;
      recvLen := 0;
    }

    method ReceiveMore(tmpBuffer: array<bv8>, buffer: array<bv8>)
      requires tmpBuffer.Length == buffer.Length == BUFFER_SIZE && tmpBuffer != buffer
      requires recvLen + |Received(socket.incoming, BUFFER_SIZE)| <= BUFFER_SIZE
      modifies this`recvLen, socket, tmpBuffer, buffer
      ensures recvLen <= BUFFER_SIZE
      ensures buffer[..recvLen] == old(buffer[..recvLen]) + Received(old(socket.incoming), BUFFER_SIZE)
      ensures socket.incoming == Pending(old(socket.incoming), BUFFER_SIZE)
    {
      var n := socket.ReceiveBytes(tmpBuffer, BUFFER_SIZE);
      if n > 0 {
        forall i | 0 <= i < n {
          buffer[recvLen + i] := tmpBuffer[i];
        }
        recvLen := recvLen + n;
      }
    }

    /** One phase; all it asks for is that no receive runs past the buffer. */
    method RecvAllData(limit: nat, tmpBuffer: array<bv8>, buffer: array<bv8>) returns (ok: bool)
      requires tmpBuffer.Length == buffer.Length == BUFFER_SIZE && tmpBuffer != buffer && recvLen <= BUFFER_SIZE
      requires Gather(buffer[..recvLen], limit, socket.incoming, 0).ending != Overran
      modifies this`recvLen, socket, tmpBuffer, buffer
      ensures recvLen <= BUFFER_SIZE
      ensures Gathered(if ok then Enough else TooFew, buffer[..recvLen], socket.incoming)
              == Gather(old(buffer[..recvLen]), limit, old(socket.incoming), 0)
    {
      var tryCount := 0;
      while recvLen < limit
        invariant tryCount <= MAX_TRIES && recvLen <= BUFFER_SIZE
        invariant Gather(buffer[..recvLen], limit, socket.incoming, tryCount)
                  == Gather(old(buffer[..recvLen]), limit, old(socket.incoming), 0)
        decreases MAX_TRIES - tryCount
      {
        GatherStep(buffer[..recvLen], limit, socket.incoming, tryCount);
        ReceiveMore(tmpBuffer, buffer);
        tryCount := tryCount + 1;
        if tryCount > MAX_TRIES {
          return false;
        }
      }
      return true;
    }

    method OnSocketReadable() returns (verdict: Verdict)
      requires Handle(socket.incoming) != Overrun
      modifies this`recvLen, socket
      ensures verdict == Handle(old(socket.incoming))
    {
      var buffer := new bv8[BUFFER_SIZE];
      var tmpBuffer := new bv8[BUFFER_SIZE];
      recvLen := socket.ReceiveBytes(buffer, HEADER_SIZE);
      if recvLen <= 0 {
        return NoData;
      }
      GatherKeepsBytes(buffer[..recvLen], HEADER_SIZE, socket.incoming, 0);
      var ok := RecvAllData(HEADER_SIZE, tmpBuffer, buffer);
      if !ok {
        return GaveUp;
      }
      var headerOk, msgLength := ReadHeader(buffer);
      if !headerOk {
        return BadHeader;
      }
      verdict := ReceivePayload(msgLength, tmpBuffer, buffer);
    }

    method ReceivePayload(msgLength: nat, tmpBuffer: array<bv8>, buffer: array<bv8>) returns (verdict: Verdict)
      requires tmpBuffer.Length == buffer.Length == BUFFER_SIZE && tmpBuffer != buffer
      requires HEADER_SIZE <= recvLen <= BUFFER_SIZE && msgLength == MsgLength(buffer[..recvLen])
      requires HandlePayload(buffer[..recvLen], socket.incoming) != Overrun
      modifies this`recvLen, socket, tmpBuffer, buffer
      ensures verdict == HandlePayload(old(buffer[..recvLen]), old(socket.incoming))
    {
      var limit := HEADER_SIZE + msgLength + TRAILER_SIZE;
      GatherKeepsBytes(buffer[..recvLen], limit, socket.incoming, 0);
      var ok := RecvAllData(limit, tmpBuffer, buffer);
      if !ok {
        return GaveUp;
      }
      verdict := CheckBuffer(buffer, msgLength);
    }

    method ReadHeader(buffer: array<bv8>) returns (headerOk: bool, msgLength: nat)
      requires buffer.Length == BUFFER_SIZE && HEADER_SIZE <= recvLen <= BUFFER_SIZE
      ensures headerOk == HeaderOk(buffer[..recvLen]) && msgLength == MsgLength(buffer[..recvLen])
    {
      msgLength := Word32(buffer[22], buffer[23], buffer[24], buffer[25]) as int;
      headerOk := !(Word(buffer[0], buffer[1]) != 0xFAEB || msgLength <= 0 || msgLength > MAX_PAYLOAD);
    }

    method CheckBuffer(buffer: array<bv8>, msgLength: nat) returns (verdict: Verdict)
      requires buffer.Length == BUFFER_SIZE && HEADER_SIZE + msgLength + TRAILER_SIZE <= recvLen <= BUFFER_SIZE
      ensures verdict == CheckTrailer(buffer[..recvLen], msgLength)
    {
      var e := HEADER_SIZE + msgLength;
      ghost var w := buffer[..recvLen];
      assert w[e] == buffer[e] && w[e + 1] == buffer[e + 1] && w[e + 2] == buffer[e + 2] && w[e + 3] == buffer[e + 3];
      if Word(buffer[e + 2], buffer[e + 3]) != 0xECFD {
        return BadEndCode;
      }
      var data := new bv8[e](i requires 0 <= i < e reads buffer => buffer[i]);
      assert data[..e] == w[..e];
      var crc := NCrc16(data, e);
      assert crc == Checksum(w[..e]);
      if Word(buffer[e], buffer[e + 1]) != crc {
        return BadCheckCode;
      }
      assert w[HEADER_SIZE..e] == buffer[HEADER_SIZE..e];
      return Payload(buffer[HEADER_SIZE..e]);
    }
  }
}
