/**
 The codec of TopicMonInfo (dds/monitor.pb.cc): parse, serialize, size and merge. A message is the
 list of its 13 field values in the order of their numbers; field i of the list has number i + 1.
 */
module MonitorCodec {
  import opened Collections
  import opened Wire

  datatype Kind = Text | Int32 | Int64

  datatype Value = Str(s: seq<byte>) | Num(n: int)

  const FIELDS := 13

  function KindOf(i: nat): Kind
    requires i < FIELDS
  {
    if i == 1 || i == 11 then Int32 else if 7 <= i <= 10 then Int64 else Text
  }

  type Message = seq<Value>

  predicate HasKind(k: Kind, v: Value) {
    match k
    case Text => v.Str?
    case Int32 => v.Num? && IsInt32(v.n)
    case Int64 => v.Num? && IsInt64(v.n)
  }

  ghost predicate WellTyped(m: Message) {
    |m| == FIELDS && forall i :: 0 <= i < FIELDS ==> HasKind(KindOf(i), m[i])
  }

  /** Field i can be sent: a string is not too long. */
  predicate Fits(v: Value) {
    v.Str? ==> |v.s| <= MAX_SIZE
  }

  predicate Legible(v: Value) {
    v.Str? ==> IsUtf8(v.s)
  }

  predicate IsDefault(v: Value) {
    match v
    case Str(s) => |s| == 0
    case Num(n) => n == 0
  }

  function Default(k: Kind): Value {
    if k == Text then Str([]) else Num(0)
  }

  /** A message with no field set. */
  function Empty(): (m: Message)
    ensures |m| == FIELDS && forall i :: 0 <= i < FIELDS ==> m[i] == Default(KindOf(i))
  {
    seq(FIELDS, i requires 0 <= i < FIELDS => Default(KindOf(i)))
  }

  // ----- Serializing -----

  function Tag(i: nat): byte
    requires i < FIELDS
  {
    8 * (i + 1) + if KindOf(i) == Text then 2 else 0
  }

  /** The tag of every field, after the message definition. */
  const TAGS: seq<nat> := [10, 16, 26, 34, 42, 50, 58, 64, 72, 80, 88, 96, 106]

  function Payload(v: Value): seq<byte>
    requires v.Num? ==> IsInt64(v.n)
  {
    if v.Str? then EncodeString(v.s) else EncodeVarint(Unsigned(v.n))
  }

  function FieldBytes(i: nat, v: Value): seq<byte>
    requires i < FIELDS && HasKind(KindOf(i), v)
  {
    if IsDefault(v) then [] else [Tag(i)] + Payload(v)
  }

  /** The bytes of the first n fields. */
  function SerializeFirst(m: Message, n: nat): seq<byte>
    requires WellTyped(m) && n <= FIELDS
  {
    if n == 0 then [] else SerializeFirst(m, n - 1) + FieldBytes(n - 1, m[n - 1])
  }

  function Serialize(m: Message): seq<byte>
    requires WellTyped(m)
  {
    SerializeFirst(m, FIELDS)
  }

  // ----- Merging -----

  /** Fields that the second message does not set keep their values. */
  function Merge(a: Message, b: Message): Message
    requires |a| == |b| == FIELDS
  {
    MergeFirst(a, b, FIELDS)
  }

  function MergeFirst(a: Message, b: Message, n: nat): (m: Message)
    requires |a| == |b| == FIELDS && n <= FIELDS
    ensures |m| == FIELDS
    ensures forall i :: 0 <= i < FIELDS ==> m[i] == if i < n && !IsDefault(b[i]) then b[i] else a[i]
  {
    seq(FIELDS, i requires 0 <= i < FIELDS => if i < n && !IsDefault(b[i]) then b[i] else a[i])
  }

  /** What field i holds when it is not set. */
  function Unset(i: nat): Value {
    if i == 1 || 7 <= i <= 11 then Num(0) else Str([])
  }

  lemma DefaultIsUnset(i: nat, v: Value)
    requires i < FIELDS && HasKind(KindOf(i), v)
    ensures IsDefault(v) <==> v == Unset(i)
  {
    if v.Str? && |v.s| == 0 {
      assert v.s == [];
    }
  }

  /** A merge takes over exactly the fields that the second message sets, and so none of an empty message. */
  lemma MergeMeans(a: Message, b: Message)
    requires |a| == FIELDS && WellTyped(b)
    ensures forall i: nat :: i < FIELDS ==> Merge(a, b)[i] == if b[i] == Unset(i) then a[i] else b[i]
    ensures Empty() == [Str([]), Num(0), Str([]), Str([]), Str([]), Str([]), Str([]),
                        Num(0), Num(0), Num(0), Num(0), Num(0), Str([])]
    ensures Merge(a, Empty()) == a
  {
    forall i: nat | i < FIELDS ensures Merge(a, b)[i] == if b[i] == Unset(i) then a[i] else b[i] {
      assert HasKind(KindOf(i), b[i]);
      DefaultIsUnset(i, b[i]);
    }
    assert Merge(a, Empty()) == a;
  }

  // ----- Parsing -----

  /**
   The end of the input; a tag 0 or an end-group tag, which end the message; a field that the
   message does not know, whose handling is not modelled; or an error.
   */
  datatype Status = AtEnd | Stopped(tag: nat) | Unknown(tag: nat) | Failed

  datatype Parsed = Parsed(msg: Message, status: Status)

  /** The field that a tag stands for. */
  function FieldOf(tag: nat): (r: Option<nat>)
    ensures r.Some? ==> r.value < FIELDS && tag == Tag(r.value)
  {
    var i := tag / 8 - 1;
    if 0 <= i < FIELDS && tag == Tag(i) then Some(i) else None
  }

  function ReadValue(k: Kind, bs: seq<byte>): (r: Option<Read<Value>>)
    ensures r.Some? ==> |r.value.rest| < |bs| && HasKind(k, r.value.got)
  {
    if k == Text then
      match DecodeString(bs)
      case None => None
      case Some(r) => Some(Read(Str(r.got), r.rest))
    else
      match DecodeVarint(bs, 10)
      case None => None
      case Some(r) => Some(Read(Num(if k == Int32 then Signed32(r.got) else Signed64(r.got)), r.rest))
  }

  function ReadTag(bs: seq<byte>): (r: Option<Read<nat>>)
    ensures r.Some? ==> |r.value.rest| < |bs|
  {
    match DecodeVarint(bs, 5)
    case None => None
    case Some(r) => Some(Read(r.got % TWO_32, r.rest))
  }

  /** One round of the parse loop: a finished result, or the message and bytes to go on with. */
  datatype Round = Done(result: Parsed) | Go(msg: Message, rest: seq<byte>)

  function ParseValue(m: Message, i: nat, bs: seq<byte>): (r: Round)
    requires |m| == FIELDS && i < FIELDS
    ensures r.Go? ==> |r.msg| == FIELDS && |r.rest| < |bs|
    ensures r.Done? ==> |r.result.msg| == FIELDS
  {
    match ReadValue(KindOf(i), bs)
    case None => Done(Parsed(m, Failed))
    case Some(v) =>
      if Legible(v.got) then Go(m[i := v.got], v.rest) else Done(Parsed(m[i := v.got], Failed))
  }

  function ParseField(m: Message, bs: seq<byte>): (r: Round)
    requires |m| == FIELDS
    ensures r.Go? ==> |r.msg| == FIELDS && |r.rest| < |bs|
    ensures r.Done? ==> |r.result.msg| == FIELDS
  {
    match ReadTag(bs)
    case None => Done(Parsed(m, Failed))
    case Some(t) =>
      match FieldOf(t.got)
      case None => Done(Parsed(m, if t.got == 0 || t.got % 8 == 4 then Stopped(t.got) else Unknown(t.got)))
      case Some(i) => ParseValue(m, i, t.rest)
  }

  function Parse(m: Message, bs: seq<byte>): (r: Parsed)
    requires |m| == FIELDS
    ensures |r.msg| == FIELDS
    decreases |bs|
  {
    if bs == [] then Parsed(m, AtEnd) else
      match ParseField(m, bs)
      case Done(result) => result
      case Go(msg, rest) => Parse(msg, rest)
  }

  /** A tag is read from at most 5 bytes, a number from at most 10. */
  lemma WhenTagOrNumberIsRead(bs: seq<byte>, i: nat)
    requires i < |bs| && bs[i] < 128 && forall k :: 0 <= k < i ==> bs[k] >= 128
    ensures ReadTag(bs).Some? <==> i < 5
    ensures i < 5 ==> ReadTag(bs).value == Read(Base128(bs[..i + 1]) % 4294967296, bs[i + 1..])
    ensures ReadValue(Int64, bs).Some? <==> i < 10
    ensures i < 10 ==> ReadValue(Int64, bs).value == Read(Num(Signed64(Base128(bs[..i + 1]))), bs[i + 1..])
    ensures i < 10 ==> ReadValue(Int32, bs) == Some(Read(Num(Signed32(Base128(bs[..i + 1]))), bs[i + 1..]))
  {
    WhenVarintDecodes(bs, 5, i);
    WhenVarintDecodes(bs, 10, i);
  }

  // ----- Parsing goes on where it stopped -----

  lemma FieldExtends(m: Message, bs: seq<byte>, tail: seq<byte>)
    requires |m| == FIELDS && ParseField(m, bs).Go?
    ensures ParseField(m, bs + tail) == Go(ParseField(m, bs).msg, ParseField(m, bs).rest + tail)
  {
    DecodeExtends(bs, 5, tail);
    var t := ReadTag(bs).value;
    var i := FieldOf(t.got).value;
    if KindOf(i) == Text {
      DecodeStringExtends(t.rest, tail);
    } else {
      DecodeExtends(t.rest, 10, tail);
    }
  }

  /** Parsing two complete pieces one after the other is parsing them joined. */
  lemma {:induction false} ParseConcat(m: Message, a: seq<byte>, b: seq<byte>)
    requires |m| == FIELDS && Parse(m, a).status == AtEnd
    ensures Parse(m, a + b) == Parse(Parse(m, a).msg, b)
    decreases |a|
  {
    if a == [] {
      assert a + b == b;
    } else {
      FieldExtends(m, a, b);
      ParseConcat(ParseField(m, a).msg, ParseField(m, a).rest, b);
    }
  }

  // ----- Round trips -----

  lemma ValueRoundTrip(k: Kind, v: Value, tail: seq<byte>)
    requires HasKind(k, v) && Fits(v)
    ensures ReadValue(k, Payload(v) + tail) == Some(Read(v, tail))
  {
    if v.Str? {
      StringRoundTrip(v.s, tail);
    } else {
      SignsRoundTrip(v.n);
      SizesInUse(Unsigned(v.n));
      VarintRoundTrip(Unsigned(v.n), 10, tail);
    }
  }

  lemma TagRoundTrip(i: nat, tail: seq<byte>)
    requires i < FIELDS
    ensures ReadTag([Tag(i)] + tail) == Some(Read(Tag(i) as nat, tail)) && FieldOf(Tag(i)) == Some(i)
  {
    assert EncodeVarint(Tag(i)) == [Tag(i)];
    VarintRoundTrip(Tag(i), 5, tail);
  }

  lemma Assoc(a: seq<byte>, b: seq<byte>, c: seq<byte>)
    ensures (a + b) + c == a + (b + c)
  {
  }

  lemma TaggedField(m: Message, i: nat, body: seq<byte>)
    requires |m| == FIELDS && i < FIELDS
    ensures ParseField(m, [Tag(i)] + body) == ParseValue(m, i, body)
  {
    TagRoundTrip(i, body);
  }

  lemma FieldRoundTrip(m: Message, i: nat, v: Value, tail: seq<byte>)
    requires |m| == FIELDS && i < FIELDS && HasKind(KindOf(i), v) && Fits(v) && !IsDefault(v)
    ensures ParseField(m, FieldBytes(i, v) + tail) ==
            if Legible(v) then Go(m[i := v], tail) else Done(Parsed(m[i := v], Failed))
  {
    var payload := Payload(v);
    Assoc([Tag(i)], payload, tail);
    TaggedField(m, i, payload + tail);
    ValueRoundTrip(KindOf(i), v, tail);
  }

  ghost predicate Sendable(m: Message) {
    WellTyped(m) && forall i :: 0 <= i < FIELDS ==> Fits(m[i])
  }

  lemma OneFieldMerges(a: Message, b: Message, i: nat)
    requires |a| == FIELDS && Sendable(b) && i < FIELDS && Legible(b[i])
    ensures Parse(MergeFirst(a, b, i), FieldBytes(i, b[i])) == Parsed(MergeFirst(a, b, i + 1), AtEnd)
  {
    var m := MergeFirst(a, b, i);
    if IsDefault(b[i]) {
      assert MergeFirst(a, b, i + 1) == m;
    } else {
      var bytes := FieldBytes(i, b[i]);
      FieldRoundTrip(m, i, b[i], []);
      assert bytes + [] == bytes && bytes != [];
      assert MergeFirst(a, b, i + 1) == m[i := b[i]];
    }
  }

  lemma {:induction false} FirstFieldsMerge(a: Message, b: Message, n: nat)
    requires |a| == FIELDS && Sendable(b) && n <= FIELDS && forall i :: 0 <= i < n ==> Legible(b[i])
    ensures Parse(a, SerializeFirst(b, n)) == Parsed(MergeFirst(a, b, n), AtEnd)
    decreases n
  {
    if n == 0 {
      assert MergeFirst(a, b, 0) == a;
    } else {
      FirstFieldsMerge(a, b, n - 1);
      ParseConcat(a, SerializeFirst(b, n - 1), FieldBytes(n - 1, b[n - 1]));
      OneFieldMerges(a, b, n - 1);
    }
  }

  lemma OneMoreField(m: Message, i: nat)
    requires WellTyped(m) && i < FIELDS
    ensures SerializeFirst(m, i) <= SerializeFirst(m, i + 1)
  {
  }

  lemma PrefixOfPrefix(a: seq<byte>, b: seq<byte>, c: seq<byte>)
    requires a <= b && b <= c
    ensures a <= c
  {
  }

  lemma {:induction false} FirstFieldsArePrefix(m: Message, n: nat, k: nat)
    requires WellTyped(m) && n <= k <= FIELDS
    ensures SerializeFirst(m, n) <= SerializeFirst(m, k)
    decreases k
  {
    if n < k {
      var i := k - 1;
      FirstFieldsArePrefix(m, n, i);
      OneMoreField(m, i);
      PrefixOfPrefix(SerializeFirst(m, n), SerializeFirst(m, i), SerializeFirst(m, i + 1));
    }
  }

  lemma InsideAndBehind(all: seq<byte>, head: seq<byte>, bytes: seq<byte>, tail: seq<byte>) returns (rest: seq<byte>)
    requires head + bytes <= all
    ensures all + tail == head + (bytes + rest)
  {
    var later := all[|head + bytes|..];
    assert all == (head + bytes) + later;
    Assoc(head + bytes, later, tail);
    Assoc(head, bytes, later + tail);
    rest := later + tail;
  }

  lemma FieldInside(m: Message, i: nat, tail: seq<byte>) returns (rest: seq<byte>)
    requires WellTyped(m) && i < FIELDS
    ensures Serialize(m) + tail == SerializeFirst(m, i) + (FieldBytes(i, m[i]) + rest)
  {
    FirstFieldsArePrefix(m, i + 1, FIELDS);
    rest := InsideAndBehind(Serialize(m), SerializeFirst(m, i), FieldBytes(i, m[i]), tail);
  }

  lemma IllegibleField(m: Message, i: nat, v: Value, rest: seq<byte>)
    requires |m| == FIELDS && i < FIELDS && HasKind(KindOf(i), v) && Fits(v) && !Legible(v)
    ensures Parse(m, FieldBytes(i, v) + rest) == Parsed(m[i := v], Failed)
  {
    FieldRoundTrip(m, i, v, rest);
    assert FieldBytes(i, v) != [];
  }

  /** The first string that is not UTF-8 is still stored, but ends the parse; later fields are not read. */
  lemma IllegibleFieldFails(a: Message, b: Message, i: nat, tail: seq<byte>)
    requires |a| == FIELDS && Sendable(b) && i < FIELDS
    requires !Legible(b[i]) && forall k :: 0 <= k < i ==> Legible(b[k])
    ensures Parse(a, Serialize(b) + tail) == Parsed(MergeFirst(a, b, i + 1), Failed)
  {
    var rest := FieldInside(b, i, tail);
    FirstFieldsMerge(a, b, i);
    ParseConcat(a, SerializeFirst(b, i), FieldBytes(i, b[i]) + rest);
    IllegibleField(MergeFirst(a, b, i), i, b[i], rest);
    assert MergeFirst(a, b, i + 1) == MergeFirst(a, b, i)[i := b[i]];
  }

  /**
   Parsing a serialized message into another one merges it, exactly if all its strings are UTF-8;
   with any other string the parse fails.
   */
  lemma ParseMerges(a: Message, b: Message)
    requires |a| == FIELDS && Sendable(b)
    ensures (forall i :: 0 <= i < FIELDS ==> Legible(b[i])) ==> Parse(a, Serialize(b)) == Parsed(Merge(a, b), AtEnd)
    ensures (exists i :: 0 <= i < FIELDS && !Legible(b[i])) ==> Parse(a, Serialize(b)).status == Failed
  {
    if forall i :: 0 <= i < FIELDS ==> Legible(b[i]) {
      FirstFieldsMerge(a, b, FIELDS);
    } else {
      var i := FirstIllegible(b, 0);
      IllegibleFieldFails(a, b, i, []);
      assert Serialize(b) + [] == Serialize(b);
    }
  }

  lemma {:induction false} FirstIllegible(b: Message, from: nat) returns (i: nat)
    requires |b| == FIELDS && from < FIELDS && exists k :: from <= k < FIELDS && !Legible(b[k])
    ensures from <= i < FIELDS && !Legible(b[i]) && forall k :: from <= k < i ==> Legible(b[k])
    decreases FIELDS - from
  {
    if !Legible(b[from]) {
      i := from;
    } else {
      i := FirstIllegible(b, from + 1);
    }
  }

  /** A message comes back from its bytes exactly if its strings are UTF-8. */
  lemma RoundTrip(m: Message)
    requires Sendable(m)
    ensures Parse(Empty(), Serialize(m)) == Parsed(m, AtEnd) <==> forall i :: 0 <= i < FIELDS ==> Legible(m[i])
  {
    ParseMerges(Empty(), m);
    forall i | 0 <= i < FIELDS ensures Merge(Empty(), m)[i] == m[i] {
      assert HasKind(KindOf(i), m[i]);
    }
    assert Merge(Empty(), m) == m;
  }

  /** The bytes of two messages one after the other parse to their merge. */
  lemma ParseOfTwo(a: Message, b: Message)
    requires Sendable(a) && Sendable(b)
    requires forall i :: 0 <= i < FIELDS ==> Legible(a[i]) && Legible(b[i])
    ensures Parse(Empty(), Serialize(a) + Serialize(b)) == Parsed(Merge(a, b), AtEnd)
  {
    RoundTrip(a);
    ParseConcat(Empty(), Serialize(a), Serialize(b));
    ParseMerges(a, b);
  }

  /** A tag 0 or an end-group tag ends the message before the rest is read; so does a field it does not know. */
  lemma OtherTagsStop(m: Message, tag: nat, tail: seq<byte>)
    requires |m| == FIELDS && tag < TWO_32 && tag !in TAGS
    ensures Parse(m, EncodeVarint(tag) + tail) ==
            Parsed(m, if tag == 0 || tag % 8 == 4 then Stopped(tag) else Unknown(tag))
  {
    var bs := EncodeVarint(tag) + tail;
    OtherTag(tag);
    TagIsRead(tag, tail);
    StopsAt(m, bs, tag, tail);
  }

  lemma TagIsRead(tag: nat, tail: seq<byte>)
    requires tag < TWO_32
    ensures EncodeVarint(tag) + tail != [] && ReadTag(EncodeVarint(tag) + tail) == Some(Read(tag, tail))
  {
    SizesInUse(tag);
    VarintRoundTrip(tag, 5, tail);
    ReadsTag(EncodeVarint(tag) + tail, tag, tail);
  }

  lemma ReadsTag(bs: seq<byte>, tag: nat, rest: seq<byte>)
    requires tag < TWO_32 && DecodeVarint(bs, 5) == Some(Read(tag, rest))
    ensures bs != [] && ReadTag(bs) == Some(Read(tag, rest))
  {
  }

  lemma OtherTag(tag: nat)
    requires tag !in TAGS
    ensures FieldOf(tag) == None
  {
    forall i: nat | i < FIELDS ensures Tag(i) as nat != tag {
      TagsByNumber(i);
      assert TAGS[i] in TAGS;
    }
  }

  lemma StopsAt(m: Message, bs: seq<byte>, tag: nat, rest: seq<byte>)
    requires |m| == FIELDS && bs != [] && ReadTag(bs) == Some(Read(tag, rest)) && FieldOf(tag) == None
    ensures Parse(m, bs) == Parsed(m, if tag == 0 || tag % 8 == 4 then Stopped(tag) else Unknown(tag))
  {
  }

  lemma ZeroStops(m: Message, tail: seq<byte>)
    requires |m| == FIELDS
    ensures Parse(m, [0] + tail) == Parsed(m, Stopped(0))
  {
    assert EncodeVarint(0) == [0];
    OtherTagsStop(m, 0, tail);
  }

  /** The zero byte that the monitor appends ends the message and changes no field. */
  lemma TrailingZero(m: Message, tail: seq<byte>)
    requires Sendable(m) && forall i :: 0 <= i < FIELDS ==> Legible(m[i])
    ensures Parse(Empty(), Serialize(m) + ([0] + tail)) == Parsed(m, Stopped(0))
  {
    RoundTrip(m);
    ParseConcat(Empty(), Serialize(m), [0] + tail);
    ZeroStops(m, tail);
  }

  // ----- What the bytes hold -----

  /** The tags and values in some bytes, in their order, if they are made of whole fields. */
  function FieldsIn(bs: seq<byte>): Option<seq<(nat, Value)>>
    decreases |bs|
  {
    if bs == [] then Some([]) else
      match ReadTag(bs)
      case None => None
      case Some(t) =>
        match FieldOf(t.got)
        case None => None
        case Some(i) =>
          match ReadValue(KindOf(i), t.rest)
          case None => None
          case Some(v) =>
            match FieldsIn(v.rest)
            case None => None
            case Some(later) => Some([(t.got, v.got)] + later)
  }

  /** Field i with its tag, if it is set. */
  function SetField(i: nat, v: Value): seq<(nat, Value)>
    requires i < FIELDS
  {
    if v == Unset(i) then [] else [(TAGS[i], v)]
  }

  /** The fields among the first n that are set. */
  function SetFields(m: Message, n: nat): seq<(nat, Value)>
    requires n <= FIELDS == |m|
  {
    if n == 0 then [] else SetFields(m, n - 1) + SetField(n - 1, m[n - 1])
  }

  /** The bytes hold these fields. */
  ghost predicate Holding(bs: seq<byte>, fields: seq<(nat, Value)>) {
    FieldsIn(bs) == Some(fields)
  }

  lemma OneFieldIn(i: nat, v: Value, tail: seq<byte>, fields: seq<(nat, Value)>)
    requires i < FIELDS && HasKind(KindOf(i), v) && Fits(v) && !IsDefault(v) && Holding(tail, fields)
    ensures Holding(FieldBytes(i, v) + tail, [(Tag(i) as nat, v)] + fields)
  {
    var body := Payload(v) + tail;
    Assoc([Tag(i)], Payload(v), tail);
    TagRoundTrip(i, body);
    ValueRoundTrip(KindOf(i), v, tail);
  }

  lemma TagsByNumber(i: nat)
    requires i < FIELDS
    ensures Tag(i) == TAGS[i]
  {
  }

  lemma UnsetTakesNothing(i: nat, v: Value, tail: seq<byte>, fields: seq<(nat, Value)>)
    requires i < FIELDS && HasKind(KindOf(i), v) && v == Unset(i)
    ensures FieldBytes(i, v) + tail == tail && SetField(i, v) + fields == fields
  {
    DefaultIsUnset(i, v);
    assert [] + tail == tail && SetField(i, v) == [];
  }

  lemma FieldInFront(i: nat, v: Value, tail: seq<byte>, fields: seq<(nat, Value)>)
    requires i < FIELDS && HasKind(KindOf(i), v) && Fits(v) && Holding(tail, fields)
    ensures Holding(FieldBytes(i, v) + tail, SetField(i, v) + fields)
  {
    if v == Unset(i) {
      UnsetTakesNothing(i, v, tail, fields);
    } else {
      DefaultIsUnset(i, v);
      TagsByNumber(i);
      OneFieldIn(i, v, tail, fields);
    }
  }

  lemma JoinedInFront(a: seq<byte>, b: seq<byte>, tail: seq<byte>, x: seq<(nat, Value)>, y: seq<(nat, Value)>,
                      fields: seq<(nat, Value)>)
    requires Holding(a + (b + tail), x + (y + fields))
    ensures Holding((a + b) + tail, (x + y) + fields)
  {
    Assoc(a, b, tail);
    assert x + (y + fields) == (x + y) + fields;
  }

  lemma OneMoreSet(m: Message, i: nat)
    requires WellTyped(m) && i < FIELDS
    ensures SerializeFirst(m, i + 1) == SerializeFirst(m, i) + FieldBytes(i, m[i])
    ensures SetFields(m, i + 1) == SetFields(m, i) + SetField(i, m[i])
  {
  }

  lemma {:induction false} FirstFieldsIn(m: Message, n: nat, tail: seq<byte>, fields: seq<(nat, Value)>)
    requires Sendable(m) && n <= FIELDS && Holding(tail, fields)
    ensures Holding(SerializeFirst(m, n) + tail, SetFields(m, n) + fields)
    decreases n
  {
    if n == 0 {
      assert SerializeFirst(m, 0) + tail == tail && SetFields(m, 0) + fields == fields;
    } else {
      var i := n - 1;
      var v := m[i];
      FieldInFront(i, v, tail, fields);
      FirstFieldsIn(m, i, FieldBytes(i, v) + tail, SetField(i, v) + fields);
      JoinedInFront(SerializeFirst(m, i), FieldBytes(i, v), tail, SetFields(m, i), SetField(i, v), fields);
      OneMoreSet(m, i);
    }
  }

  /**
   The bytes of a message are its set fields, each once, after its tag and in the order of their numbers;
   fields that are not set take no bytes. So different messages have different bytes, and only the
   empty one has none.
   */
  lemma BytesHoldTheSetFields(m: Message)
    requires Sendable(m)
    ensures FieldsIn(Serialize(m)) == Some(SetFields(m, FIELDS))
    ensures Serialize(m) == [] <==> m == Empty()
  {
    FirstFieldsIn(m, FIELDS, [], []);
    assert Serialize(m) + [] == Serialize(m) && SetFields(m, FIELDS) + [] == SetFields(m, FIELDS);
    OnlyEmptyTakesNothing(m);
  }

  lemma OnlyEmptyTakesNothing(m: Message)
    requires WellTyped(m)
    ensures Serialize(m) == [] <==> m == Empty()
  {
    if Serialize(m) == [] {
      forall i: nat | i < FIELDS ensures m[i] == Empty()[i] {
        NothingWritten(m, i, FIELDS);
        assert HasKind(KindOf(i), m[i]);
      }
      assert m == Empty();
    } else if m == Empty() {
      NothingSet(FIELDS);
    }
  }

  lemma {:induction false} NothingWritten(m: Message, i: nat, n: nat)
    requires WellTyped(m) && i < n <= FIELDS && SerializeFirst(m, n) == []
    ensures IsDefault(m[i])
    decreases n
  {
    var j := n - 1;
    assert |SerializeFirst(m, n)| == |SerializeFirst(m, j)| + |FieldBytes(j, m[j])|;
    if i < j {
      NothingWritten(m, i, j);
    }
  }

  lemma {:induction false} NothingSet(n: nat)
    requires n <= FIELDS && WellTyped(Empty())
    ensures SerializeFirst(Empty(), n) == []
  {
    if n > 0 {
      NothingSet(n - 1);
    }
  }
}
