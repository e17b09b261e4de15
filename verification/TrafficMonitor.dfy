/**
 Counting the messages and bytes of a topic (dds/ZenohBase.h). Four counters, for messages and
 replies, sent and received, are filled as messages go by and published from time to time.
 */
module TrafficMonitor {
  import opened Collections
  import opened Wire
  import opened MonitorCodec
  import opened MonitorMessage

  const COUNTERS := 4

  /** What a recorder passes on about one message. */
  datatype Sample = Sample(uuid: seq<byte>, topicName: seq<byte>, srcNodeId: seq<byte>, toNodeId: seq<byte>,
                           length: nat, srcType: int, programName: seq<byte>, time: int)

  /** The fixed settings: is monitoring on, is there a publisher, and the values put into every message. */
  datatype Config = Config(needMonitor: bool, hasPublisher: bool, domain: int, cycle: int)

  const ZERO := Impl([], 0, [], [], [], [], [], 0, 0, 0, 0, 0, [])

  function Add(c: Config, total: Impl, d: Sample): Impl {
    total.(uuid := d.uuid, domain := c.domain, topicName := d.topicName, cycle := c.cycle, toNodeId := d.toNodeId,
           srcNodeId := d.srcNodeId, updateTime := d.time, nSize := total.nSize + d.length,
           nCount := total.nCount + 1, srcType := d.srcType, progarmName := d.programName)
  }

  /** A published counter. */
  datatype Report = Report(counter: nat, info: Impl)

  /** The counters in the order in which they are published, and everything published so far. */
  datatype Monitor = Monitor(totals: seq<Impl>, reports: seq<Report>)

  function Record(c: Config, m: Monitor, i: nat, d: Sample): Monitor
    requires |m.totals| == COUNTERS && i < COUNTERS
  {
    if d.length == 0 || !c.needMonitor then m
    else m.(totals := m.totals[i := Add(c, m.totals[i], d)])
  }

  /** Counter i is reported and starts again at 0. */
  function Publish(m: Monitor, i: nat): Monitor
    requires |m.totals| == COUNTERS && i < COUNTERS
  {
    Monitor(m.totals[i := m.totals[i].(nCount := 0, nSize := 0)], m.reports + [Report(i, m.totals[i])])
  }

  /** Publishes the counters from i on that counted something; a put that fails ends the round. */
  function FlushFrom(m: Monitor, putOk: nat -> bool, i: nat): (r: Monitor)
    requires |m.totals| == COUNTERS && i <= COUNTERS
    ensures |r.totals| == COUNTERS
    decreases COUNTERS - i
  {
    if i == COUNTERS then m
    else if m.totals[i].nCount <= 0 then FlushFrom(m, putOk, i + 1)
    else if !putOk(i) then m
    else FlushFrom(Publish(m, i), putOk, i + 1)
  }

  function Flush(c: Config, m: Monitor, putOk: nat -> bool): (r: Monitor)
    requires |m.totals| == COUNTERS
    ensures |r.totals| == COUNTERS
  {
    if c.needMonitor && c.hasPublisher then FlushFrom(m, putOk, 0) else m
  }

  datatype Step = Recorded(counter: nat, sample: Sample) | Flushed(putOk: nat -> bool)

  function Apply(c: Config, m: Monitor, s: Step): (r: Monitor)
    requires |m.totals| == COUNTERS && (s.Recorded? ==> s.counter < COUNTERS)
    ensures |r.totals| == COUNTERS
  {
    match s
    case Recorded(i, d) => Record(c, m, i, d)
    case Flushed(putOk) => Flush(c, m, putOk)
  }

  ghost predicate Steps(steps: seq<Step>) {
    forall k :: 0 <= k < |steps| ==> steps[k].Recorded? ==> steps[k].counter < COUNTERS
  }

  /** The state after a run. */
  function Run(c: Config, steps: seq<Step>): (r: Monitor)
    requires Steps(steps)
    ensures |r.totals| == COUNTERS
  {
    if steps == [] then Monitor([ZERO, ZERO, ZERO, ZERO], [])
    else Apply(c, Run(c, steps[..|steps| - 1]), steps[|steps| - 1])
  }

  // ----- Totals -----

  /** Messages and bytes. */
  datatype Traffic = Traffic(count: int, size: int) {
    function Plus(t: Traffic): Traffic {
      Traffic(count + t.count, size + t.size)
    }
  }

  function Of(info: Impl): Traffic {
    Traffic(info.nCount, info.nSize)
  }

  /** What one step offers to counter i. */
  function OfferedBy(c: Config, s: Step, i: nat): Traffic {
    if s.Recorded? && s.counter == i && c.needMonitor && s.sample.length > 0
    then Traffic(1, s.sample.length) else Traffic(0, 0)
  }

  /** What the samples for counter i add up to. */
  function Offered(c: Config, steps: seq<Step>, i: nat): Traffic {
    if steps == [] then Traffic(0, 0)
    else
      Offered(c, steps[..|steps| - 1], i).Plus(OfferedBy(c, steps[|steps| - 1], i))
  }

  function Reported(reports: seq<Report>, i: nat): Traffic {
    if reports == [] then Traffic(0, 0)
    else
      var before, r := Reported(reports[..|reports| - 1], i), reports[|reports| - 1];
      if r.counter == i then before.Plus(Of(r.info)) else before
  }

  /** Everything that counter i holds or has reported. */
  function Accounted(m: Monitor, i: nat): Traffic
    requires |m.totals| == COUNTERS && i < COUNTERS
  {
    Reported(m.reports, i).Plus(Of(m.totals[i]))
  }

  ghost predicate NonNegative(m: Monitor) {
    && |m.totals| == COUNTERS
    && forall i :: 0 <= i < COUNTERS ==>
         m.totals[i].nCount >= 0 && m.totals[i].nSize >= 0 && (m.totals[i].nCount == 0 ==> m.totals[i].nSize == 0)
  }

  lemma ReportedSnoc(reports: seq<Report>, r: Report, i: nat)
    ensures Reported(reports + [r], i) ==
            if r.counter == i then Reported(reports, i).Plus(Of(r.info)) else Reported(reports, i)
  {
    assert (reports + [r])[..|reports|] == reports;
  }

  /** A flush moves traffic from the counters to the reports, whichever puts fail. */
  lemma {:induction false} FlushConserves(m: Monitor, putOk: nat -> bool, from: nat, i: nat)
    requires NonNegative(m) && from <= COUNTERS && i < COUNTERS
    ensures NonNegative(FlushFrom(m, putOk, from))
    ensures Accounted(FlushFrom(m, putOk, from), i) == Accounted(m, i)
    decreases COUNTERS - from
  {
    if from < COUNTERS {
      if m.totals[from].nCount == 0 {
        FlushConserves(m, putOk, from + 1, i);
      } else if putOk(from) {
        ReportedSnoc(m.reports, Report(from, m.totals[from]), i);
        FlushConserves(Publish(m, from), putOk, from + 1, i);
      }
    }
  }

  /** Recording a message adds one message and its bytes to its own counter, and nothing to the others. */
  lemma RecordAddsOneMessage(c: Config, m: Monitor, i: nat, d: Sample, j: nat)
    requires |m.totals| == COUNTERS && i < COUNTERS && j < COUNTERS
    ensures Accounted(Record(c, m, i, d), j) ==
            if i == j && c.needMonitor && d.length > 0 then Accounted(m, j).Plus(Traffic(1, d.length))
            else Accounted(m, j)
  {
    var n := Record(c, m, i, d);
    assert n.reports == m.reports;
    if d.length > 0 && c.needMonitor {
      assert n.totals[i].nCount == m.totals[i].nCount + 1 && n.totals[i].nSize == m.totals[i].nSize + d.length;
    }
  }

  lemma StepConserves(c: Config, m: Monitor, s: Step, i: nat)
    requires NonNegative(m) && (s.Recorded? ==> s.counter < COUNTERS) && i < COUNTERS
    ensures NonNegative(Apply(c, m, s))
    ensures Accounted(Apply(c, m, s), i) == Accounted(m, i).Plus(OfferedBy(c, s, i))
  {
    match s
    case Flushed(putOk) => FlushConserves(m, putOk, 0, i);
    case Recorded(j, d) => RecordAddsOneMessage(c, m, j, d, i);
  }

  /** Over any run, what was reported and what is pending add up to what was offered, for each counter. */
  lemma {:induction false} TrafficIsConserved(c: Config, steps: seq<Step>, i: nat)
    requires Steps(steps) && i < COUNTERS
    ensures NonNegative(Run(c, steps))
    ensures Accounted(Run(c, steps), i) == Offered(c, steps, i)
    decreases |steps|
  {
    if steps != [] {
      var before := steps[..|steps| - 1];
      TrafficIsConserved(c, before, i);
      StepConserves(c, Run(c, before), steps[|steps| - 1], i);
    }
  }

  /** No put fails for the counters from..i that have something to publish. */
  ghost predicate AllSent(m: Monitor, putOk: nat -> bool, from: nat, i: nat)
    requires |m.totals| == COUNTERS && i < COUNTERS
  {
    forall k: nat :: from <= k <= i && m.totals[k].nCount > 0 ==> putOk(k)
  }

  lemma {:induction false} EarlierStay(m: Monitor, putOk: nat -> bool, from: nat, i: nat)
    requires |m.totals| == COUNTERS && i < from <= COUNTERS
    ensures FlushFrom(m, putOk, from).totals[i] == m.totals[i]
    decreases COUNTERS - from
  {
    if from < COUNTERS && !(m.totals[from].nCount <= 0) && putOk(from) {
      EarlierStay(Publish(m, from), putOk, from + 1, i);
    } else if from < COUNTERS && m.totals[from].nCount <= 0 {
      EarlierStay(m, putOk, from + 1, i);
    }
  }

  /** A round stops at the first counter whose put fails; that one and those behind it keep their traffic. */
  lemma {:induction false} WhatARoundPublishes(m: Monitor, putOk: nat -> bool, from: nat, i: nat)
    requires |m.totals| == COUNTERS && from <= i < COUNTERS
    ensures FlushFrom(m, putOk, from).totals[i] ==
            if m.totals[i].nCount > 0 && AllSent(m, putOk, from, i) then m.totals[i].(nCount := 0, nSize := 0)
            else m.totals[i]
    decreases COUNTERS - from
  {
    if m.totals[from].nCount <= 0 {
      if from < i {
        WhatARoundPublishes(m, putOk, from + 1, i);
        assert AllSent(m, putOk, from + 1, i) == AllSent(m, putOk, from, i);
      } else {
        EarlierStay(m, putOk, from + 1, i);
      }
    } else if putOk(from) {
      var next := Publish(m, from);
      if from < i {
        WhatARoundPublishes(next, putOk, from + 1, i);
        assert AllSent(next, putOk, from + 1, i) == AllSent(m, putOk, from, i);
      } else {
        EarlierStay(next, putOk, from + 1, i);
      }
    }
  }

  // ----- What a report names -----

  /** The last sample that counter i recorded. */
  function LastSample(c: Config, steps: seq<Step>, i: nat): Option<Sample> {
    if steps == [] then None
    else
      var s := steps[|steps| - 1];
      if s.Recorded? && s.counter == i && c.needMonitor && s.sample.length > 0 then Some(s.sample)
      else LastSample(c, steps[..|steps| - 1], i)
  }

  /** The counter carries the values of this sample and the configured ones. */
  ghost predicate Names(c: Config, d: Sample, info: Impl) {
    && info.uuid == d.uuid && info.topicName == d.topicName
    && info.srcNodeId == d.srcNodeId && info.toNodeId == d.toNodeId
    && info.srcNodeName == [] && info.toNodeName == []
    && info.srcType == d.srcType && info.progarmName == d.programName && info.updateTime == d.time
    && info.domain == c.domain && info.cycle == c.cycle
  }

  lemma {:induction false} FlushKeepsNames(m: Monitor, putOk: nat -> bool, from: nat, i: nat)
    requires |m.totals| == COUNTERS && from <= COUNTERS && i < COUNTERS
    ensures var info := FlushFrom(m, putOk, from).totals[i];
            info == m.totals[i] || info == m.totals[i].(nCount := 0, nSize := 0)
    decreases COUNTERS - from
  {
    if from < COUNTERS {
      if m.totals[from].nCount <= 0 {
        FlushKeepsNames(m, putOk, from + 1, i);
      } else if putOk(from) {
        FlushKeepsNames(Publish(m, from), putOk, from + 1, i);
      }
    }
  }

  /** A counter carries the values of its last sample; before the first one nothing is set. */
  lemma {:induction false} TotalsNameLastSample(c: Config, steps: seq<Step>, i: nat)
    requires Steps(steps) && i < COUNTERS
    ensures var info, last := Run(c, steps).totals[i], LastSample(c, steps, i);
            if last.Some? then Names(c, last.value, info) else info == ZERO
    decreases |steps|
  {
    if steps != [] {
      var before, s := steps[..|steps| - 1], steps[|steps| - 1];
      TotalsNameLastSample(c, before, i);
      if s.Flushed? {
        FlushKeepsNames(Run(c, before), s.putOk, 0, i);
      }
    }
  }

  /** A flush reports counters as they are, in their order, and only those that counted something. */
  lemma {:induction false} WhatAFlushReports(m: Monitor, putOk: nat -> bool, from: nat)
    requires |m.totals| == COUNTERS && from <= COUNTERS
    ensures var reports := FlushFrom(m, putOk, from).reports;
            && m.reports <= reports
            && (forall k :: |m.reports| <= k < |reports| ==> IsReport(m, from, reports[k]))
            && (forall k, l :: |m.reports| <= k < l < |reports| ==> reports[k].counter < reports[l].counter)
    decreases COUNTERS - from
  {
    if from < COUNTERS {
      if m.totals[from].nCount <= 0 {
        WhatAFlushReports(m, putOk, from + 1);
        var reports := FlushFrom(m, putOk, from + 1).reports;
        assert forall k :: |m.reports| <= k < |reports| ==> IsReport(m, from + 1, reports[k]);
      } else if putOk(from) {
        var next := Publish(m, from);
        WhatAFlushReports(next, putOk, from + 1);
        var reports := FlushFrom(next, putOk, from + 1).reports;
        assert reports[|m.reports|] == next.reports[|m.reports|];
        forall k | |m.reports| <= k < |reports|
          ensures IsReport(m, from, reports[k]) && (k > |m.reports| ==> reports[k].counter > from)
        {
          if k > |m.reports| {
            assert IsReport(next, from + 1, reports[k]);
          }
        }
      }
    }
  }

  /** The report of a counter, from `from` on, that counted something. */
  ghost predicate IsReport(m: Monitor, from: nat, r: Report)
    requires |m.totals| == COUNTERS
  {
    from <= r.counter < COUNTERS && r.info == m.totals[r.counter] && r.info.nCount > 0
  }

  /** Report k was made by step p, from what its counter had added up and named until then. */
  ghost predicate MadeBy(c: Config, steps: seq<Step>, r: Report, p: nat)
    requires Steps(steps)
  {
    && p < |steps| && steps[p].Flushed? && r.counter < COUNTERS && r.info.nCount > 0
    && r.info == Run(c, steps[..p]).totals[r.counter]
    && LastSample(c, steps[..p], r.counter).Some?
    && Names(c, LastSample(c, steps[..p], r.counter).value, r.info)
  }

  /** Every report of a run carries the values of the last sample that its counter recorded before it. */
  lemma {:induction false} ReportsNameLastSample(c: Config, steps: seq<Step>, k: nat) returns (p: nat)
    requires Steps(steps) && k < |Run(c, steps).reports|
    ensures MadeBy(c, steps, Run(c, steps).reports[k], p)
    decreases |steps|
  {
    var n := |steps| - 1;
    var before, s := steps[..n], steps[n];
    var m := Run(c, before);
    if s.Flushed? {
      WhatAFlushReports(m, s.putOk, 0);
    }
    if k < |m.reports| {
      p := ReportsNameLastSample(c, before, k);
      assert before[..p] == steps[..p];
    } else {
      p := n;
      var r := Run(c, steps).reports[k];
      assert IsReport(m, 0, r);
      TotalsNameLastSample(c, before, r.counter);
    }
  }

  /** Without monitoring nothing is recorded or published, and without a publisher nothing is published. */
  lemma {:induction false} SwitchedOff(c: Config, steps: seq<Step>)
    requires Steps(steps)
    ensures !c.needMonitor ==> Run(c, steps) == Monitor([ZERO, ZERO, ZERO, ZERO], [])
    ensures !c.hasPublisher ==> Run(c, steps).reports == []
    decreases |steps|
  {
    if steps != [] {
      SwitchedOff(c, steps[..|steps| - 1]);
    }
  }

  // ----- What the monitoring node reads -----

  function ToMessage(info: Impl): Message {
    [Str(info.uuid), Num(info.domain), Str(info.srcNodeId), Str(info.srcNodeName), Str(info.toNodeId),
     Str(info.toNodeName), Str(info.topicName), Num(info.cycle), Num(info.updateTime), Num(info.nCount),
     Num(info.nSize), Num(info.srcType), Str(info.progarmName)]
  }

  ghost predicate InRange(info: Impl) {
    && IsInt32(info.domain) && IsInt32(info.srcType) && IsInt64(info.cycle) && IsInt64(info.updateTime)
    && IsInt64(info.nCount) && IsInt64(info.nSize)
  }

  ghost predicate TextsFit(info: Impl) {
    && |info.uuid| <= MAX_SIZE && |info.srcNodeId| <= MAX_SIZE && |info.srcNodeName| <= MAX_SIZE
    && |info.toNodeId| <= MAX_SIZE && |info.toNodeName| <= MAX_SIZE && |info.topicName| <= MAX_SIZE
    && |info.progarmName| <= MAX_SIZE
  }

  /** The strings that are written before the numbers of the traffic are UTF-8. */
  predicate EarlierTextsLegible(info: Impl) {
    && IsUtf8(info.uuid) && IsUtf8(info.srcNodeId) && IsUtf8(info.srcNodeName)
    && IsUtf8(info.toNodeId) && IsUtf8(info.toNodeName) && IsUtf8(info.topicName)
  }

  lemma ToMessageHolds(info: Impl)
    requires InRange(info)
    ensures Holds(info, ToMessage(info)) && WellTyped(ToMessage(info))
  {
    HoldsWellTyped(info, ToMessage(info));
  }

  /** The bytes put on the channel: the serialized counter, in a buffer that is one zero byte too long. */
  function PayloadOf(info: Impl): seq<byte>
    requires InRange(info)
  {
    ToMessageHolds(info);
    Serialize(ToMessage(info)) + [0]
  }

  /** What the monitoring node finds in a payload, whatever the parser's verdict. */
  function Decoded(payload: seq<byte>): (m: Message)
    ensures |m| == FIELDS
  {
    Parse(Empty(), payload).msg
  }

  /** A payload is the set fields with their tags, and a zero byte behind them. */
  lemma PayloadHoldsTheFields(info: Impl)
    requires InRange(info) && TextsFit(info)
    ensures var bs := PayloadOf(info);
            && |bs| > 0 && bs[|bs| - 1] == 0
            && FieldsIn(bs[..|bs| - 1]) == Some(SetFields(ToMessage(info), FIELDS))
  {
    ToMessageHolds(info);
    TextFields(info);
    BytesHoldTheSetFields(ToMessage(info));
    assert PayloadOf(info)[..|PayloadOf(info)| - 1] == Serialize(ToMessage(info));
  }

  lemma TextFields(info: Impl)
    requires InRange(info)
    ensures var m := ToMessage(info);
            && (TextsFit(info) ==> forall i :: 0 <= i < FIELDS ==> Fits(m[i]))
            && (forall i :: 0 <= i < FIELDS && !Legible(m[i]) ==> i <= 6 || i == 12)
            && (EarlierTextsLegible(info) <==> forall i :: 0 <= i <= 6 ==> Legible(m[i]))
  {
    var m := ToMessage(info);
    ToMessageHolds(info);
    forall i | 0 <= i < FIELDS ensures (TextsFit(info) ==> Fits(m[i])) && (!Legible(m[i]) ==> i <= 6 || i == 12) {
      assert HasKind(KindOf(i), m[i]);
    }
    assert Legible(m[0]) == IsUtf8(info.uuid) && Legible(m[2]) == IsUtf8(info.srcNodeId);
    assert Legible(m[3]) == IsUtf8(info.srcNodeName) && Legible(m[4]) == IsUtf8(info.toNodeId);
    assert Legible(m[5]) == IsUtf8(info.toNodeName) && Legible(m[6]) == IsUtf8(info.topicName);
  }

  /**
   The monitoring node reads all that was published, in spite of the zero byte, exactly if the strings
   before the numbers are UTF-8; otherwise it reads no messages at all.
   */
  lemma WhenTrafficIsRead(info: Impl)
    requires InRange(info) && TextsFit(info) && info.nCount > 0
    ensures var m := Decoded(PayloadOf(info));
            if EarlierTextsLegible(info) then m == ToMessage(info) else m[9] == Num(0) && m[10] == Num(0)
  {
    var m := ToMessage(info);
    ToMessageHolds(info);
    TextFields(info);
    if forall i :: 0 <= i < FIELDS ==> Legible(m[i]) {
      TrailingZero(m, []);
      assert [0] + [] == [0];
    } else {
      var i := FirstIllegible(m, 0);
      IllegibleFieldFails(Empty(), m, i, [0]);
      if EarlierTextsLegible(info) {
        MergeOfAll(m);
      }
    }
  }

  lemma MergeOfAll(m: Message)
    requires WellTyped(m)
    ensures MergeFirst(Empty(), m, FIELDS) == m
  {
    var merged := MergeFirst(Empty(), m, FIELDS);
    forall i: nat | i < FIELDS ensures merged[i] == m[i] {
      assert HasKind(KindOf(i), m[i]);
      DefaultIsUnset(i, m[i]);
    }
    assert merged == m;
  }

  // ----- End to end -----

  ghost predicate Good(info: Impl) {
    InRange(info) && TextsFit(info) && 0 <= info.nCount <= info.nSize
  }

  ghost predicate GoodSample(d: Sample) {
    && |d.uuid| <= MAX_SIZE && |d.topicName| <= MAX_SIZE && |d.srcNodeId| <= MAX_SIZE && |d.toNodeId| <= MAX_SIZE
    && |d.programName| <= MAX_SIZE
    && IsInt32(d.srcType) && IsInt64(d.time)
  }

  ghost predicate AllGood(m: Monitor) {
    && |m.totals| == COUNTERS
    && (forall i :: 0 <= i < COUNTERS ==> Good(m.totals[i]))
    && (forall k :: 0 <= k < |m.reports| ==> Good(m.reports[k].info) && m.reports[k].info.nCount > 0)
  }

  lemma {:induction false} FlushKeepsGood(m: Monitor, putOk: nat -> bool, i: nat)
    requires AllGood(m) && i <= COUNTERS
    ensures AllGood(FlushFrom(m, putOk, i))
    decreases COUNTERS - i
  {
    if i < COUNTERS {
      if m.totals[i].nCount <= 0 {
        FlushKeepsGood(m, putOk, i + 1);
      } else if putOk(i) {
        var next := Publish(m, i);
        assert AllGood(next);
        FlushKeepsGood(next, putOk, i + 1);
      }
    }
  }

  lemma {:induction false} ReportedIsNonNegative(reports: seq<Report>, i: nat)
    requires forall k :: 0 <= k < |reports| ==> Good(reports[k].info)
    ensures Reported(reports, i).count >= 0 && Reported(reports, i).size >= 0
    decreases |reports|
  {
    if reports != [] {
      ReportedIsNonNegative(reports[..|reports| - 1], i);
    }
  }

  ghost predicate GoodRun(c: Config, steps: seq<Step>) {
    && Steps(steps) && IsInt32(c.domain) && IsInt64(c.cycle)
    && (forall k :: 0 <= k < |steps| && steps[k].Recorded? ==> GoodSample(steps[k].sample))
    && (forall i: nat :: i < COUNTERS ==> Offered(c, steps, i).size < TWO_63)
  }

  lemma ShorterRunIsGood(c: Config, steps: seq<Step>)
    requires GoodRun(c, steps) && steps != []
    ensures GoodRun(c, steps[..|steps| - 1])
  {
    var before := steps[..|steps| - 1];
    forall i: nat | i < COUNTERS ensures Offered(c, before, i).size < TWO_63 {
      assert Offered(c, before, i).size <= Offered(c, steps, i).size;
    }
  }

  lemma AddIsGood(c: Config, total: Impl, d: Sample)
    requires Good(total) && GoodSample(d) && IsInt32(c.domain) && IsInt64(c.cycle)
    requires d.length > 0 && total.nSize + d.length < TWO_63
    ensures Good(Add(c, total, d))
  {
  }

  lemma {:induction false} RunIsGood(c: Config, steps: seq<Step>)
    requires GoodRun(c, steps)
    ensures AllGood(Run(c, steps))
    decreases |steps|
  {
    if steps == [] {
      assert Good(ZERO);
    } else {
      var before, s := steps[..|steps| - 1], steps[|steps| - 1];
      ShorterRunIsGood(c, steps);
      RunIsGood(c, before);
      var m := Run(c, before);
      match s
      case Flushed(putOk) => FlushKeepsGood(m, putOk, 0);
      case Recorded(i, d) =>
        if d.length > 0 && c.needMonitor {
          TrafficIsConserved(c, before, i);
          ReportedIsNonNegative(m.reports, i);
          assert Offered(c, steps, i).size < TWO_63;
          AddIsGood(c, m.totals[i], d);
        }
    }
  }

  /** What the monitoring node reads in all reports of counter i. */
  ghost function ReadTraffic(reports: seq<Report>, i: nat): Traffic
    requires forall k :: 0 <= k < |reports| ==> Good(reports[k].info)
  {
    if reports == [] then Traffic(0, 0)
    else
      var before, r := ReadTraffic(reports[..|reports| - 1], i), reports[|reports| - 1];
      assert Good(reports[|reports| - 1].info);
      var m := Decoded(PayloadOf(r.info));
      if r.counter == i && m[9].Num? && m[10].Num? then before.Plus(Traffic(m[9].n, m[10].n)) else before
  }

  /** The reports of counter i have no illegible string before their numbers. */
  ghost predicate LegibleReports(reports: seq<Report>, i: nat) {
    forall k :: 0 <= k < |reports| && reports[k].counter == i ==> EarlierTextsLegible(reports[k].info)
  }

  lemma LegibleButLast(reports: seq<Report>, i: nat)
    requires reports != []
    ensures var r := reports[|reports| - 1];
            LegibleReports(reports, i) <==>
            LegibleReports(reports[..|reports| - 1], i) && (r.counter == i ==> EarlierTextsLegible(r.info))
  {
  }

  /** What is read never exceeds what was reported, and is all of it exactly if the reports are legible. */
  lemma {:induction false} ReadIsReportedIfLegible(reports: seq<Report>, i: nat)
    requires forall k :: 0 <= k < |reports| ==> Good(reports[k].info) && reports[k].info.nCount > 0
    ensures ReadTraffic(reports, i).count <= Reported(reports, i).count
    ensures LegibleReports(reports, i) ==> ReadTraffic(reports, i) == Reported(reports, i)
    ensures !LegibleReports(reports, i) ==> ReadTraffic(reports, i).count < Reported(reports, i).count
    decreases |reports|
  {
    if reports != [] {
      ReadIsReportedIfLegible(reports[..|reports| - 1], i);
      LegibleButLast(reports, i);
      WhenTrafficIsRead(reports[|reports| - 1].info);
    }
  }

  /**
   Over any run with less than 2^63 bytes: what the monitoring node reads and what is still pending
   add up to what went by, for each counter, exactly if no report of that counter has an illegible
   string before its numbers.
   */
  lemma MonitoringNodeSeesAllTraffic(c: Config, steps: seq<Step>, i: nat)
    requires GoodRun(c, steps) && i < COUNTERS
    ensures AllGood(Run(c, steps))
    ensures ReadTraffic(Run(c, steps).reports, i).Plus(Of(Run(c, steps).totals[i])) == Offered(c, steps, i)
            <==> LegibleReports(Run(c, steps).reports, i)
  {
    RunIsGood(c, steps);
    ReadIsReportedIfLegible(Run(c, steps).reports, i);
    TrafficIsConserved(c, steps, i);
  }

  /** Field by field: this sample's values, the configured ones, and so much traffic. */
  ghost predicate Tells(c: Config, d: Sample, t: Traffic, m: Message) {
    && |m| == FIELDS
    && m[0] == Str(d.uuid) && m[1] == Num(c.domain) && m[2] == Str(d.srcNodeId) && m[3] == Str([])
    && m[4] == Str(d.toNodeId) && m[5] == Str([]) && m[6] == Str(d.topicName) && m[7] == Num(c.cycle)
    && m[8] == Num(d.time) && m[9] == Num(t.count) && m[10] == Num(t.size) && m[11] == Num(d.srcType)
    && m[12] == Str(d.programName)
  }

  /** What the monitoring node reads in report k is the last sample before it, with what had been added up. */
  ghost predicate TellsLastSample(c: Config, steps: seq<Step>, k: nat, p: nat)
    requires Steps(steps) && k < |Run(c, steps).reports|
  {
    var r := Run(c, steps).reports[k];
    && p < |steps| && r.counter < COUNTERS && LastSample(c, steps[..p], r.counter).Some? && InRange(r.info)
    && Tells(c, LastSample(c, steps[..p], r.counter).value, Of(Run(c, steps[..p]).totals[r.counter]),
             Decoded(PayloadOf(r.info)))
  }

  lemma MessageTells(c: Config, d: Sample, info: Impl, m: Message)
    requires Names(c, d, info) && m == ToMessage(info)
    ensures Tells(c, d, Of(info), m)
  {
  }

  lemma ReportIsRead(c: Config, d: Sample, info: Impl)
    requires Good(info) && info.nCount > 0 && EarlierTextsLegible(info) && Names(c, d, info)
    ensures Tells(c, d, Of(info), Decoded(PayloadOf(info)))
  {
    WhenTrafficIsRead(info);
    MessageTells(c, d, info, Decoded(PayloadOf(info)));
  }

  /** Every report of a run with legible names tells the monitoring node what happened to its counter. */
  lemma MonitoringNodeReadsLastSample(c: Config, steps: seq<Step>, k: nat) returns (p: nat)
    requires GoodRun(c, steps) && k < |Run(c, steps).reports|
    requires EarlierTextsLegible(Run(c, steps).reports[k].info)
    ensures p < |steps| && steps[p].Flushed? && TellsLastSample(c, steps, k, p)
  {
    RunIsGood(c, steps);
    var r := Run(c, steps).reports[k];
    assert Good(r.info) && r.info.nCount > 0;
    p := ReportsNameLastSample(c, steps, k);
    MadeReportIsRead(c, steps, k, p);
  }

  lemma MadeReportIsRead(c: Config, steps: seq<Step>, k: nat, p: nat)
    requires Steps(steps) && k < |Run(c, steps).reports|
    requires var r := Run(c, steps).reports[k];
             Good(r.info) && EarlierTextsLegible(r.info) && MadeBy(c, steps, r, p)
    ensures TellsLastSample(c, steps, k, p)
  {
    var r := Run(c, steps).reports[k];
    ReportIsRead(c, LastSample(c, steps[..p], r.counter).value, r.info);
  }

  /** The strings of a sample that come before the numbers are UTF-8. */
  ghost predicate LegibleSample(d: Sample) {
    IsUtf8(d.uuid) && IsUtf8(d.topicName) && IsUtf8(d.srcNodeId) && IsUtf8(d.toNodeId)
  }

  ghost predicate NamesLegible(info: Impl) {
    EarlierTextsLegible(info) && info.srcNodeName == [] && info.toNodeName == []
  }

  lemma {:induction false} FlushKeepsLegible(m: Monitor, putOk: nat -> bool, from: nat, i: nat)
    requires |m.totals| == COUNTERS && from <= COUNTERS && i < COUNTERS
    requires NamesLegible(m.totals[i]) && LegibleReports(m.reports, i)
    ensures var n := FlushFrom(m, putOk, from); NamesLegible(n.totals[i]) && LegibleReports(n.reports, i)
    decreases COUNTERS - from
  {
    if from < COUNTERS {
      if m.totals[from].nCount <= 0 {
        FlushKeepsLegible(m, putOk, from + 1, i);
      } else if putOk(from) {
        FlushKeepsLegible(Publish(m, from), putOk, from + 1, i);
      }
    }
  }

  /** Legible samples make legible reports. */
  lemma {:induction false} LegibleSamplesMakeLegibleReports(c: Config, steps: seq<Step>, i: nat)
    requires Steps(steps) && i < COUNTERS
    requires forall k :: 0 <= k < |steps| && steps[k].Recorded? && steps[k].counter == i ==>
               LegibleSample(steps[k].sample)
    ensures NamesLegible(Run(c, steps).totals[i]) && LegibleReports(Run(c, steps).reports, i)
    decreases |steps|
  {
    if steps != [] {
      var before, s := steps[..|steps| - 1], steps[|steps| - 1];
      LegibleSamplesMakeLegibleReports(c, before, i);
      if s.Flushed? {
        FlushKeepsLegible(Run(c, before), s.putOk, 0, i);
      }
    }
  }

  // ----- The monitored object -----

  ghost predicate PayloadsOf(reports: seq<Report>, payloads: seq<seq<byte>>) {
    && |reports| == |payloads|
    && forall k :: 0 <= k < |reports| ==> InRange(reports[k].info) && payloads[k] == PayloadOf(reports[k].info)
  }

  /** The node's own name is in what it counts: as the source of what it sends, as the target of what it receives. */
  ghost predicate SignedBy(nodeId: seq<byte>, programName: seq<byte>, i: nat, info: Impl) {
    && info.progarmName == programName
    && if i < 2 then info.srcNodeId == nodeId && info.srcType == 1 else info.toNodeId == nodeId && info.srcType == 2
  }

  ghost predicate AllSigned(nodeId: seq<byte>, programName: seq<byte>, m: Monitor) {
    && |m.totals| == COUNTERS
    && (forall i: nat :: i < COUNTERS && m.totals[i].nCount > 0 ==> SignedBy(nodeId, programName, i, m.totals[i]))
    && (forall k: nat :: k < |m.reports| ==> SignedBy(nodeId, programName, m.reports[k].counter, m.reports[k].info))
  }

  lemma {:induction false} FlushKeepsSigned(nodeId: seq<byte>, programName: seq<byte>, m: Monitor,
                                            putOk: nat -> bool, i: nat)
    requires AllSigned(nodeId, programName, m) && i <= COUNTERS
    ensures AllSigned(nodeId, programName, FlushFrom(m, putOk, i))
    decreases COUNTERS - i
  {
    if i < COUNTERS {
      if m.totals[i].nCount <= 0 {
        FlushKeepsSigned(nodeId, programName, m, putOk, i + 1);
      } else if putOk(i) {
        FlushKeepsSigned(nodeId, programName, Publish(m, i), putOk, i + 1);
      }
    }
  }

  /** The ghost field is the state of the specification above. */
  class ZenohBase {
    const config: Config
    const topic: seq<byte>
    const topicReply: seq<byte>
    const nodeId: seq<byte>
    const programName: seq<byte>
    var monPubInfo: Impl
    var monReplyPubInfo: Impl
    var monReaderInfo: Impl
    var monReplyReaderInfo: Impl
    var published: seq<seq<byte>>
    ghost var state: Monitor

    ghost predicate Valid()
      reads this
    {
      && IsInt32(config.domain) && IsInt64(config.cycle)
      && state.totals == [monPubInfo, monReplyPubInfo, monReaderInfo, monReplyReaderInfo]
      && InRange(monPubInfo) && InRange(monReplyPubInfo) && InRange(monReaderInfo) && InRange(monReplyReaderInfo)
      && PayloadsOf(state.reports, published)
    }

    /** Counters 0 and 1 and their reports name this node as the source, 2 and 3 as the target. */
    ghost predicate Signed()
      reads this
    {
      AllSigned(nodeId, programName, state)
    }

    constructor (config: Config, topic: seq<byte>, topicReply: seq<byte>, nodeId: seq<byte>, programName: seq<byte>)
      requires IsInt32(config.domain) && IsInt64(config.cycle)
      ensures Valid() && Signed() && state == Run(config, []) && this.config == config
      ensures this.topic == topic && this.topicReply == topicReply
      ensures this.nodeId == nodeId && this.programName == programName
    {
      this.config := config;
      this.topic, this.topicReply, this.nodeId, this.programName := topic, topicReply, nodeId, programName;
      monPubInfo, monReplyPubInfo, monReaderInfo, monReplyReaderInfo := ZERO, ZERO, ZERO, ZERO;
      published := [];
      state := Monitor([ZERO, ZERO, ZERO, ZERO], []);
    }

    /** The fields that each of the four accumulators takes over, and the two that it adds up. */
    method Accumulate(total: Impl, d: Sample) returns (info: Impl)
      ensures info == Add(config, total, d)
    {
      info := total;
      info := info.(uuid := d.uuid);
      info := info.(domain := config.domain);
      info := info.(topicName := d.topicName);
      info := info.(cycle := config.cycle);
      info := info.(toNodeId := d.toNodeId);
      info := info.(srcNodeId := d.srcNodeId);
      info := info.(updateTime := d.time);
      info := info.(nSize := info.nSize + d.length);
      info := info.(nCount := info.nCount + 1);
      info := info.(srcType := d.srcType);
      info := info.(progarmName := d.programName);
    }

    method WriteMonMsg(d: Sample) returns (code: int)
      requires Valid() && d.length > 0 && IsInt32(d.srcType) && IsInt64(d.time)
      requires IsInt64(monPubInfo.nSize + d.length) && IsInt64(monPubInfo.nCount + 1)
      modifies this`monPubInfo, this`state
      ensures Valid() && state == Record(config, old(state), 0, d)
      ensures code == if config.needMonitor then 0 else 1
    {
      if !config.needMonitor {
        return 1;
      }
      monPubInfo := Accumulate(monPubInfo, d);
      state := Record(config, state, 0, d);
      code := 0;
    }

    /** A message was sent. */
    method StatWriterMonData(length: nat, node: seq<byte>, uuid: seq<byte>, time: int)
      requires Valid() && IsInt64(time) && IsInt64(monPubInfo.nSize + length) && IsInt64(monPubInfo.nCount + 1)
      modifies this`monPubInfo, this`state
      ensures Valid()
      ensures state ==
              Record(config, old(state), 0, Sample(uuid, topic, nodeId, node, length, 1, programName, time))
      ensures old(Signed()) ==> Signed()
    {
      if length > 0 {
        var code := WriteMonMsg(Sample(uuid, topic, nodeId, node, length, 1, programName, time));
      }
    }

    method WriteReplyMonMsg(d: Sample) returns (code: int)
      requires Valid() && d.length > 0 && IsInt32(d.srcType) && IsInt64(d.time)
      requires IsInt64(monReplyPubInfo.nSize + d.length) && IsInt64(monReplyPubInfo.nCount + 1)
      modifies this`monReplyPubInfo, this`state
      ensures Valid() && state == Record(config, old(state), 1, d)
      ensures code == if config.needMonitor then 0 else 1
    {
      if !config.needMonitor {
        return 1;
      }
      monReplyPubInfo := Accumulate(monReplyPubInfo, d);
      state := Record(config, state, 1, d);
      code := 0;
    }

    /** A reply was sent. */
    method StatReplyWriterMonData(length: nat, node: seq<byte>, uuid: seq<byte>, time: int)
      requires Valid() && IsInt64(time)
      requires IsInt64(monReplyPubInfo.nSize + length) && IsInt64(monReplyPubInfo.nCount + 1)
      modifies this`monReplyPubInfo, this`state
      ensures Valid()
      ensures state ==
              Record(config, old(state), 1, Sample(uuid, topicReply, nodeId, node, length, 1, programName, time))
      ensures old(Signed()) ==> Signed()
    {
      if length > 0 {
        var code := WriteReplyMonMsg(Sample(uuid, topicReply, nodeId, node, length, 1, programName, time));
      }
    }

    method ReaderMonMsg(d: Sample) returns (code: int)
      requires Valid() && d.length > 0 && IsInt32(d.srcType) && IsInt64(d.time)
      requires IsInt64(monReaderInfo.nSize + d.length) && IsInt64(monReaderInfo.nCount + 1)
      modifies this`monReaderInfo, this`state
      ensures Valid() && state == Record(config, old(state), 2, d)
      ensures code == if config.needMonitor then 0 else 1
    {
      if !config.needMonitor {
        return 1;
      }
      monReaderInfo := Accumulate(monReaderInfo, d);
      state := Record(config, state, 2, d);
      code := 0;
    }

    /** A message was received. */
    method StatReaderMonData(topicName: seq<byte>, length: nat, node: seq<byte>, uuid: seq<byte>, time: int)
      requires Valid() && IsInt64(time) && IsInt64(monReaderInfo.nSize + length) && IsInt64(monReaderInfo.nCount + 1)
      modifies this`monReaderInfo, this`state
      ensures Valid()
      ensures state ==
              Record(config, old(state), 2, Sample(uuid, topicName, node, nodeId, length, 2, programName, time))
      ensures old(Signed()) ==> Signed()
    {
      if length > 0 {
        var code := ReaderMonMsg(Sample(uuid, topicName, node, nodeId, length, 2, programName, time));
      }
    }

    method ReaderReplyMonMsg(d: Sample) returns (code: int)
      requires Valid() && d.length > 0 && IsInt32(d.srcType) && IsInt64(d.time)
      requires IsInt64(monReplyReaderInfo.nSize + d.length) && IsInt64(monReplyReaderInfo.nCount + 1)
      modifies this`monReplyReaderInfo, this`state
      ensures Valid() && state == Record(config, old(state), 3, d)
      ensures code == if config.needMonitor then 0 else 1
    {
      if !config.needMonitor {
        return 1;
      }
      monReplyReaderInfo := Accumulate(monReplyReaderInfo, d);
      state := Record(config, state, 3, d);
      code := 0;
    }

    /** A reply was received. */
    method StatReplyReaderMonData(topicName: seq<byte>, length: nat, node: seq<byte>, uuid: seq<byte>, time: int)
      requires Valid() && IsInt64(time)
      requires IsInt64(monReplyReaderInfo.nSize + length) && IsInt64(monReplyReaderInfo.nCount + 1)
      modifies this`monReplyReaderInfo, this`state
      ensures Valid()
      ensures state ==
              Record(config, old(state), 3, Sample(uuid, topicName, node, nodeId, length, 2, programName, time))
      ensures old(Signed()) ==> Signed()
    {
      if length > 0 {
        var code := ReaderReplyMonMsg(Sample(uuid, topicName, node, nodeId, length, 2, programName, time));
      }
    }

    /** One counter of a publishing round, if it counted anything. */
    method PublishSent(putOk: nat -> bool) returns (goOn: bool)
      requires Valid()
      modifies this`monPubInfo, this`published, this`state
      ensures Valid()
      ensures FlushFrom(old(state), putOk, 0) == if goOn then FlushFrom(state, putOk, 1) else state
    {
      if monPubInfo.nCount > 0 {
        var serializedMsg := PayloadOf(monPubInfo);
        if !putOk(0) {
          return false;
        }
        PayloadsGrow(state.reports, published, Report(0, monPubInfo));
        published := published + [serializedMsg];
        monPubInfo := monPubInfo.(nCount := 0, nSize := 0);
        state := Publish(state, 0);
      }
      goOn := true;
    }

    /** One counter of a publishing round, if it counted anything. */
    method PublishSentReplies(putOk: nat -> bool) returns (goOn: bool)
      requires Valid()
      modifies this`monReplyPubInfo, this`published, this`state
      ensures Valid()
      ensures FlushFrom(old(state), putOk, 1) == if goOn then FlushFrom(state, putOk, 2) else state
    {
      if monReplyPubInfo.nCount > 0 {
        var serializedMsg := PayloadOf(monReplyPubInfo);
        if !putOk(1) {
          return false;
        }
        PayloadsGrow(state.reports, published, Report(1, monReplyPubInfo));
        published := published + [serializedMsg];
        monReplyPubInfo := monReplyPubInfo.(nCount := 0, nSize := 0);
        state := Publish(state, 1);
      }
      goOn := true;
    }

    /** One counter of a publishing round, if it counted anything. */
    method PublishReceived(putOk: nat -> bool) returns (goOn: bool)
      requires Valid()
      modifies this`monReaderInfo, this`published, this`state
      ensures Valid()
      ensures FlushFrom(old(state), putOk, 2) == if goOn then FlushFrom(state, putOk, 3) else state
    {
      if monReaderInfo.nCount > 0 {
        var serializedMsg := PayloadOf(monReaderInfo);
        if !putOk(2) {
          return false;
        }
        PayloadsGrow(state.reports, published, Report(2, monReaderInfo));
        published := published + [serializedMsg];
        monReaderInfo := monReaderInfo.(nCount := 0, nSize := 0);
        state := Publish(state, 2);
      }
      goOn := true;
    }

    /** One counter of a publishing round, if it counted anything. */
    method PublishReceivedReplies(putOk: nat -> bool) returns (goOn: bool)
      requires Valid()
      modifies this`monReplyReaderInfo, this`published, this`state
      ensures Valid()
      ensures FlushFrom(old(state), putOk, 3) == if goOn then FlushFrom(state, putOk, 4) else state
    {
      if monReplyReaderInfo.nCount > 0 {
        var serializedMsg := PayloadOf(monReplyReaderInfo);
        if !putOk(3) {
          return false;
        }
        PayloadsGrow(state.reports, published, Report(3, monReplyReaderInfo));
        published := published + [serializedMsg];
        monReplyReaderInfo := monReplyReaderInfo.(nCount := 0, nSize := 0);
        state := Publish(state, 3);
      }
      goOn := true;
    }

    /** One round of the publishing loop. A put that fails throws, which ends the round. */
    method PublishRound(putOk: nat -> bool)
      requires Valid()
      modifies this`monPubInfo, this`monReplyPubInfo, this`monReaderInfo, this`monReplyReaderInfo
      modifies this`published, this`state
      ensures Valid() && state == Flush(config, old(state), putOk)
      ensures old(Signed()) ==> Signed()
    {
      if Signed() {
        FlushKeepsSigned(nodeId, programName, state, putOk, 0);
      }
      if !config.needMonitor || !config.hasPublisher {
        return;
      }
      var goOn := PublishSent(putOk);
      if goOn {
        goOn := PublishSentReplies(putOk);
      }
      if goOn {
        goOn := PublishReceived(putOk);
      }
      if goOn {
        goOn := PublishReceivedReplies(putOk);
      }
    }
  }

  lemma PayloadsGrow(reports: seq<Report>, payloads: seq<seq<byte>>, r: Report)
    requires PayloadsOf(reports, payloads) && InRange(r.info)
    ensures PayloadsOf(reports + [r], payloads + [PayloadOf(r.info)])
  {
  }
}
