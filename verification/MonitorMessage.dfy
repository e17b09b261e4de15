/** The message object of the monitor with its 13 fields (dds/monitor.pb.cc), proved against MonitorCodec. */
module MonitorMessage {
  import opened Collections
  import opened Wire
  import opened MonitorCodec

  function FieldSize(v: Value): nat
    requires v.Num? ==> IsInt64(v.n)
  {
    if IsDefault(v) then 0
    else if v.Str? then 1 + VarintSize(|v.s|) + |v.s|
    else 1 + VarintSize(Unsigned(v.n))
  }

  lemma SizeStep(m: Message, i: nat)
    requires WellTyped(m) && i < FIELDS
    ensures |SerializeFirst(m, i + 1)| == |SerializeFirst(m, i)| + FieldSize(m[i])
  {
    assert HasKind(KindOf(i), m[i]);
    if m[i].Str? {
      EncodedSize(|m[i].s|);
    } else {
      EncodedSize(Unsigned(m[i].n));
    }
  }

  function SizeFirst(m: Message, n: nat): nat
    requires WellTyped(m) && n <= FIELDS
  {
    if n == 0 then 0 else
      assert HasKind(KindOf(n - 1), m[n - 1]);
      SizeFirst(m, n - 1) + FieldSize(m[n - 1])
  }

  lemma BothSizesStep(m: Message, i: nat, n: nat, before: nat, size: nat)
    requires WellTyped(m) && i < FIELDS && n == i + 1
    requires before == |SerializeFirst(m, i)| == SizeFirst(m, i) && size == FieldSize(m[i])
    ensures |SerializeFirst(m, n)| == before + size && SizeFirst(m, n) == before + size
  {
    SizeStep(m, i);
  }

  lemma {:induction false} SerializedSize(m: Message, n: nat)
    requires WellTyped(m) && n <= FIELDS
    ensures |SerializeFirst(m, n)| == SizeFirst(m, n)
  {
    if n > 0 {
      var i := n - 1;
      SerializedSize(m, i);
      assert HasKind(KindOf(i), m[i]);
      BothSizesStep(m, i, n, SizeFirst(m, i), FieldSize(m[i]));
    }
  }

  lemma SizeOfAll(m: Message)
    requires WellTyped(m)
    ensures |Serialize(m)| == FieldSize(m[0]) + FieldSize(m[1]) + FieldSize(m[2]) + FieldSize(m[3]) + FieldSize(m[4])
            + FieldSize(m[5]) + FieldSize(m[6]) + FieldSize(m[7]) + FieldSize(m[8])
            + FieldSize(m[9]) + FieldSize(m[10]) + FieldSize(m[11]) + FieldSize(m[12])
  {
    SerializedSize(m, FIELDS);
    assert SizeFirst(m, 1) == SizeFirst(m, 0) + FieldSize(m[0]);
    assert SizeFirst(m, 2) == SizeFirst(m, 1) + FieldSize(m[1]);
    assert SizeFirst(m, 3) == SizeFirst(m, 2) + FieldSize(m[2]);
    assert SizeFirst(m, 4) == SizeFirst(m, 3) + FieldSize(m[3]);
    assert SizeFirst(m, 5) == SizeFirst(m, 4) + FieldSize(m[4]);
    assert SizeFirst(m, 6) == SizeFirst(m, 5) + FieldSize(m[5]);
    assert SizeFirst(m, 7) == SizeFirst(m, 6) + FieldSize(m[6]);
    assert SizeFirst(m, 8) == SizeFirst(m, 7) + FieldSize(m[7]);
    assert SizeFirst(m, 9) == SizeFirst(m, 8) + FieldSize(m[8]);
    assert SizeFirst(m, 10) == SizeFirst(m, 9) + FieldSize(m[9]);
    assert SizeFirst(m, 11) == SizeFirst(m, 10) + FieldSize(m[10]);
    assert SizeFirst(m, 12) == SizeFirst(m, 11) + FieldSize(m[11]);
    assert SizeFirst(m, 13) == SizeFirst(m, 12) + FieldSize(m[12]);
  }

  /** The other value, unless that is empty. */
  function OverrideText(own: seq<byte>, other: seq<byte>): seq<byte> {
    if |other| > 0 then other else own
  }

  /** The other value, unless that is 0. */
  function OverrideNumber(own: int, other: int): int {
    if other != 0 then other else own
  }

  method WriteText(ghost m: Message, ghost i: nat, tag: byte, s: seq<byte>, before: seq<byte>)
    returns (target: seq<byte>)
    requires WellTyped(m) && i < FIELDS && tag == Tag(i) && m[i] == Str(s) && before == SerializeFirst(m, i)
    ensures target == SerializeFirst(m, i + 1)
  {
    target := before;
    if |s| > 0 {
      target := target + ([tag] + EncodeString(s));
    }
  }

  method WriteNumber(ghost m: Message, ghost i: nat, tag: byte, n: int, before: seq<byte>)
    returns (target: seq<byte>)
    requires WellTyped(m) && i < FIELDS && tag == Tag(i) && m[i] == Num(n) && IsInt64(n)
    requires before == SerializeFirst(m, i)
    ensures target == SerializeFirst(m, i + 1)
  {
    target := before;
    if n != 0 {
      target := target + ([tag] + EncodeVarint(Unsigned(n)));
    }
  }

  lemma KnownTags(t: nat)
    ensures t in {10, 26, 34, 42, 50, 58, 106} ==> FieldOf(t) == Some(t / 8 - 1) && KindOf(t / 8 - 1) == Text
    ensures t in {16, 96} ==> FieldOf(t) == Some(t / 8 - 1) && KindOf(t / 8 - 1) == Int32
    ensures t in {64, 72, 80, 88} ==> FieldOf(t) == Some(t / 8 - 1) && KindOf(t / 8 - 1) == Int64
    ensures t !in {10, 26, 34, 42, 50, 58, 106, 16, 96, 64, 72, 80, 88} ==> FieldOf(t) == None
  {
  }

  datatype Impl = Impl(
    uuid: seq<byte>,
    domain: int,
    srcNodeId: seq<byte>,
    srcNodeName: seq<byte>,
    toNodeId: seq<byte>,
    toNodeName: seq<byte>,
    topicName: seq<byte>,
    cycle: int,
    updateTime: int,
    nCount: int,
    nSize: int,
    srcType: int,
    progarmName: seq<byte>)

  /** The 13 members hold the values of the message. */
  ghost predicate Holds(impl: Impl, msg: Message) {
    && |msg| == FIELDS
    && msg[0] == Str(impl.uuid)
    && msg[1] == Num(impl.domain) && IsInt32(impl.domain)
    && msg[2] == Str(impl.srcNodeId)
    && msg[3] == Str(impl.srcNodeName)
    && msg[4] == Str(impl.toNodeId)
    && msg[5] == Str(impl.toNodeName)
    && msg[6] == Str(impl.topicName)
    && msg[7] == Num(impl.cycle) && IsInt64(impl.cycle)
    && msg[8] == Num(impl.updateTime) && IsInt64(impl.updateTime)
    && msg[9] == Num(impl.nCount) && IsInt64(impl.nCount)
    && msg[10] == Num(impl.nSize) && IsInt64(impl.nSize)
    && msg[11] == Num(impl.srcType) && IsInt32(impl.srcType)
    && msg[12] == Str(impl.progarmName)
  }

  lemma HoldsWellTyped(impl: Impl, msg: Message)
    requires Holds(impl, msg)
    ensures WellTyped(msg)
  {
    forall i | 0 <= i < FIELDS ensures HasKind(KindOf(i), msg[i]) {
    }
  }

  /** Takes over the fields that the other message sets. */
  function MergeInto(own: Impl, from: Impl): Impl {
    Impl(
      OverrideText(own.uuid, from.uuid),
      OverrideNumber(own.domain, from.domain),
      OverrideText(own.srcNodeId, from.srcNodeId),
      OverrideText(own.srcNodeName, from.srcNodeName),
      OverrideText(own.toNodeId, from.toNodeId),
      OverrideText(own.toNodeName, from.toNodeName),
      OverrideText(own.topicName, from.topicName),
      OverrideNumber(own.cycle, from.cycle),
      OverrideNumber(own.updateTime, from.updateTime),
      OverrideNumber(own.nCount, from.nCount),
      OverrideNumber(own.nSize, from.nSize),
      OverrideNumber(own.srcType, from.srcType),
      OverrideText(own.progarmName, from.progarmName))
  }

  lemma MergeIntoHolds(own: Impl, from: Impl, a: Message, b: Message)
    requires Holds(own, a) && Holds(from, b)
    ensures Holds(MergeInto(own, from), Merge(a, b))
  {
  }

  /** The ghost field is the message that the 13 members hold. */
  class TopicMonInfo {
    var impl: Impl
    ghost var msg: Message

    ghost predicate Valid()
      reads this
    {
      Holds(impl, msg)
    }

    constructor ()
      ensures Valid() && msg == Empty()
    {
      impl := Impl([], 0, [], [], [], [], [], 0, 0, 0, 0, 0, []);
      msg := Empty();
    }

    method SetText(number: nat, s: seq<byte>)
      requires Valid() && number in {1, 3, 4, 5, 6, 7, 13}
      modifies this
      ensures Valid() && msg == old(msg)[number - 1 := Str(s)]
    {
      match number {
        case 1 => impl := impl.(uuid := s);
        case 3 => impl := impl.(srcNodeId := s);
        case 4 => impl := impl.(srcNodeName := s);
        case 5 => impl := impl.(toNodeId := s);
        case 6 => impl := impl.(toNodeName := s);
        case 7 => impl := impl.(topicName := s);
        case _ => impl := impl.(progarmName := s);
      }
      msg := msg[number - 1 := Str(s)];
    }

    method SetNumber(number: nat, n: int)
      requires Valid() && number in {2, 8, 9, 10, 11, 12}
      requires if number == 2 || number == 12 then IsInt32(n) else IsInt64(n)
      modifies this
      ensures Valid() && msg == old(msg)[number - 1 := Num(n)]
    {
      match number {
        case 2 => impl := impl.(domain := n);
        case 8 => impl := impl.(cycle := n);
        case 9 => impl := impl.(updateTime := n);
        case 10 => impl := impl.(nCount := n);
        case 11 => impl := impl.(nSize := n);
        case _ => impl := impl.(srcType := n);
      }
      msg := msg[number - 1 := Num(n)];
    }

    method ParseText(number: nat, bs: seq<byte>) returns (status: Option<Status>, rest: seq<byte>)
      requires Valid() && 1 <= number <= 13 && KindOf(number - 1) == Text
      modifies this
      ensures Valid()
      ensures ParseValue(old(msg), number - 1, bs) ==
              if status == None then Go(msg, rest) else Done(Parsed(msg, status.value))
    {
      var s := DecodeString(bs);
      if s == None {
        return Some(Failed), [];
      }
      SetText(number, s.value.got);
      return if IsUtf8(s.value.got) then None else Some(Failed), s.value.rest;
    }

    method ParseNumber(number: nat, bs: seq<byte>) returns (status: Option<Status>, rest: seq<byte>)
      requires Valid() && 1 <= number <= 13 && KindOf(number - 1) != Text
      modifies this
      ensures Valid()
      ensures ParseValue(old(msg), number - 1, bs) ==
              if status == None then Go(msg, rest) else Done(Parsed(msg, status.value))
    {
      var v := DecodeVarint(bs, 10);
      if v == None {
        return Some(Failed), [];
      }
      SetNumber(number, if number == 2 || number == 12 then Signed32(v.value.got) else Signed64(v.value.got));
      return None, v.value.rest;
    }

    /** One tag and the value after it; a status ends the parse. */
    method ParseRound(bs: seq<byte>) returns (status: Option<Status>, rest: seq<byte>)
      requires Valid()
      modifies this
      ensures Valid()
      ensures ParseField(old(msg), bs) == if status == None then Go(msg, rest) else Done(Parsed(msg, status.value))
    {
      var tag := ReadTag(bs);
      if tag == None {
        return Some(Failed), [];
      }
      var t := tag.value.got;
      KnownTags(t);
      if t == 10 || t == 26 || t == 34 || t == 42 || t == 50 || t == 58 || t == 106 {
        status, rest := ParseText(t / 8, tag.value.rest);
      } else if t == 16 || t == 64 || t == 72 || t == 80 || t == 88 || t == 96 {
        status, rest := ParseNumber(t / 8, tag.value.rest);
      } else if t == 0 || t % 8 == 4 {
        return Some(Stopped(t)), [];
      } else {
        return Some(Unknown(t)), [];
      }
    }

    method InternalParse(data: seq<byte>) returns (status: Status)
      requires Valid()
      modifies this
      ensures Valid() && Parsed(msg, status) == Parse(old(msg), data)
    {
      var rest := data;
      while rest != []
        invariant Valid() && Parse(msg, rest) == Parse(old(msg), data)
        decreases |rest|
      {
        var result;
        result, rest := ParseRound(rest);
        if result != None {
          return result.value;
        }
      }
      status := AtEnd;
    }

    /** The fields that differ from their defaults, each after its tag, in the order of their numbers. */
    method InternalSerialize() returns (target: seq<byte>)
      requires Valid()
      ensures WellTyped(msg) && target == Serialize(msg)
    {
      HoldsWellTyped(impl, msg);
      target := [];
      target := WriteText(msg, 0, 10, impl.uuid, target);
      target := WriteNumber(msg, 1, 16, impl.domain, target);
      target := WriteText(msg, 2, 26, impl.srcNodeId, target);
      target := WriteText(msg, 3, 34, impl.srcNodeName, target);
      target := WriteText(msg, 4, 42, impl.toNodeId, target);
      target := WriteText(msg, 5, 50, impl.toNodeName, target);
      target := WriteText(msg, 6, 58, impl.topicName, target);
      target := WriteNumber(msg, 7, 64, impl.cycle, target);
      target := WriteNumber(msg, 8, 72, impl.updateTime, target);
      target := WriteNumber(msg, 9, 80, impl.nCount, target);
      target := WriteNumber(msg, 10, 88, impl.nSize, target);
      target := WriteNumber(msg, 11, 96, impl.srcType, target);
      target := WriteText(msg, 12, 106, impl.progarmName, target);
    }

    method TextSize(s: seq<byte>) returns (size: nat)
      ensures size == FieldSize(Str(s))
    {
      size := 0;
      if |s| > 0 {
        size := 1 + VarintSize(|s|) + |s|;
      }
    }

    method NumberSize(n: int) returns (size: nat)
      requires IsInt64(n)
      ensures size == FieldSize(Num(n))
    {
      size := 0;
      if n != 0 {
        size := 1 + VarintSize(Unsigned(n));
      }
    }

    method ByteSizeLong() returns (totalSize: nat)
      requires Valid()
      ensures WellTyped(msg) && totalSize == |Serialize(msg)|
    {
      totalSize := 0;
      var size;
      size := TextSize(impl.uuid);
      totalSize := totalSize + size;
      size := TextSize(impl.srcNodeId);
      totalSize := totalSize + size;
      size := TextSize(impl.srcNodeName);
      totalSize := totalSize + size;
      size := TextSize(impl.toNodeId);
      totalSize := totalSize + size;
      size := TextSize(impl.toNodeName);
      totalSize := totalSize + size;
      size := TextSize(impl.topicName);
      totalSize := totalSize + size;
      size := TextSize(impl.progarmName);
      totalSize := totalSize + size;
      size := NumberSize(impl.domain);
      totalSize := totalSize + size;
      size := NumberSize(impl.srcType);
      totalSize := totalSize + size;
      size := NumberSize(impl.cycle);
      totalSize := totalSize + size;
      size := NumberSize(impl.updateTime);
      totalSize := totalSize + size;
      size := NumberSize(impl.nCount);
      totalSize := totalSize + size;
      size := NumberSize(impl.nSize);
      totalSize := totalSize + size;
      HoldsWellTyped(impl, msg);
      SizeOfAll(msg);
    }

    /** Takes over the fields that the other message sets. */
    method MergeImpl(from: TopicMonInfo)
      requires from != this && Valid() && from.Valid()
      modifies this
      ensures Valid() && msg == Merge(old(msg), from.msg)
    {
      var own, other := impl, from.impl;
      var merged := own;
      merged := merged.(uuid := OverrideText(own.uuid, other.uuid));
      merged := merged.(srcNodeId := OverrideText(own.srcNodeId, other.srcNodeId));
      merged := merged.(srcNodeName := OverrideText(own.srcNodeName, other.srcNodeName));
      merged := merged.(toNodeId := OverrideText(own.toNodeId, other.toNodeId));
      merged := merged.(toNodeName := OverrideText(own.toNodeName, other.toNodeName));
      merged := merged.(topicName := OverrideText(own.topicName, other.topicName));
      merged := merged.(progarmName := OverrideText(own.progarmName, other.progarmName));
      merged := merged.(domain := OverrideNumber(own.domain, other.domain));
      merged := merged.(srcType := OverrideNumber(own.srcType, other.srcType));
      merged := merged.(cycle := OverrideNumber(own.cycle, other.cycle));
      merged := merged.(updateTime := OverrideNumber(own.updateTime, other.updateTime));
      merged := merged.(nCount := OverrideNumber(own.nCount, other.nCount));
      merged := merged.(nSize := OverrideNumber(own.nSize, other.nSize));
      MergeIntoHolds(own, other, msg, from.msg);
      impl := merged;
      msg := Merge(msg, from.msg);
    }
  }
}
