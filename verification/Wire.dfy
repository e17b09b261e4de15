/**
 The wire format under dds/monitor.pb.cc, after the Protocol Buffers Encoding document: base 128
 varints, tags, length-prefixed strings, and which strings are UTF-8.
 */
module Wire {
  import opened Collections

  type byte = x: int | 0 <= x < 256

  const TWO_31 := 0x8000_0000
  const TWO_32 := 0x1_0000_0000
  const TWO_63 := 0x8000_0000_0000_0000
  const TWO_64 := 0x1_0000_0000_0000_0000

  // The longest string that the parser takes
  const MAX_SIZE := 0x7fff_ffff - 16

  // ----- Varints -----

  function EncodeVarint(v: nat): seq<byte> {
    if v < 128 then [v] else [128 + v % 128] + EncodeVarint(v / 128)
  }

  /** A value that was read, and the bytes after it. */
  datatype Read<T> = Read(got: T, rest: seq<byte>)

  /** Takes at most limit bytes. */
  function DecodeVarint(bs: seq<byte>, limit: nat): (r: Option<Read<nat>>)
    ensures r.Some? ==> |r.value.rest| < |bs|
    decreases limit
  {
    if limit == 0 || bs == [] then None
    else if bs[0] < 128 then Some(Read(bs[0], bs[1..]))
    else
      match DecodeVarint(bs[1..], limit - 1)
      case None => None
      case Some(r) => Some(Read(bs[0] - 128 + 128 * r.got, r.rest))
  }

  function VarintSize(v: nat): nat {
    if v < 128 then 1 else 1 + VarintSize(v / 128)
  }

  lemma {:induction false} EncodedSize(v: nat)
    ensures |EncodeVarint(v)| == VarintSize(v)
  {
    if v >= 128 {
      EncodedSize(v / 128);
    }
  }

  function Pow128(n: nat): nat {
    if n == 0 then 1 else 128 * Pow128(n - 1)
  }

  lemma {:induction false} SizeIsBounded(v: nat, n: nat)
    requires n > 0 && v < Pow128(n)
    ensures VarintSize(v) <= n
    decreases n
  {
    if v >= 128 {
      SizeIsBounded(v / 128, n - 1);
    }
  }

  lemma SizesInUse(v: nat)
    ensures v < 128 ==> VarintSize(v) == 1
    ensures v < TWO_32 ==> VarintSize(v) <= 5
    ensures v < TWO_64 ==> VarintSize(v) <= 10
  {
    assert Pow128(3) == 128 * 128 * 128;
    assert Pow128(5) == 128 * 128 * Pow128(3);
    assert Pow128(8) == 128 * 128 * 128 * Pow128(5);
    assert Pow128(10) == 128 * 128 * Pow128(8);
    if v < TWO_32 {
      SizeIsBounded(v, 5);
    }
    if v < TWO_64 {
      SizeIsBounded(v, 10);
    }
  }

  lemma {:induction false} VarintRoundTrip(v: nat, limit: nat, tail: seq<byte>)
    requires VarintSize(v) <= limit
    ensures DecodeVarint(EncodeVarint(v) + tail, limit) == Some(Read(v, tail))
    decreases limit
  {
    var bs := EncodeVarint(v) + tail;
    if v < 128 {
      assert bs[1..] == tail;
    } else {
      assert bs[1..] == EncodeVarint(v / 128) + tail;
      VarintRoundTrip(v / 128, limit - 1, tail);
    }
  }

  lemma {:induction false} DecodeExtends(bs: seq<byte>, limit: nat, tail: seq<byte>)
    requires DecodeVarint(bs, limit).Some?
    ensures DecodeVarint(bs + tail, limit) ==
            Some(Read(DecodeVarint(bs, limit).value.got, DecodeVarint(bs, limit).value.rest + tail))
    decreases limit
  {
    assert (bs + tail)[1..] == bs[1..] + tail;
    if bs[0] >= 128 {
      DecodeExtends(bs[1..], limit - 1, tail);
    }
  }

  /** Seven bits from each byte, the lowest first. */
  function Base128(bs: seq<byte>): nat {
    if bs == [] then 0 else bs[0] % 128 + 128 * Base128(bs[1..])
  }

  /** A varint holds the value in base 128; all bytes but the last have the top bit set, and no byte is wasted. */
  lemma {:induction false} VarintMeans(v: nat)
    ensures var bs := EncodeVarint(v);
            && bs != [] && Base128(bs) == v && bs[|bs| - 1] < 128
            && (forall i :: 0 <= i < |bs| - 1 ==> bs[i] >= 128)
            && (|bs| > 1 ==> bs[|bs| - 1] != 0)
  {
    if v >= 128 {
      var bs, rest := EncodeVarint(v), EncodeVarint(v / 128);
      VarintMeans(v / 128);
      assert bs[1..] == rest;
      assert bs[|bs| - 1] == rest[|rest| - 1];
      if |rest| == 1 {
        assert Base128(rest) == rest[0] % 128 + 128 * Base128([]);
      }
      forall i | 0 < i < |bs| - 1 ensures bs[i] >= 128 {
        assert bs[i] == rest[i - 1];
      }
    } else {
      assert Base128([v]) == v % 128 + 128 * Base128([]);
    }
  }

  /** Reading ends at the first byte without the top bit, and fails if that is not among the first limit bytes. */
  lemma {:induction false} WhenVarintDecodes(bs: seq<byte>, limit: nat, i: nat)
    requires i <= |bs| && forall k :: 0 <= k < i ==> bs[k] >= 128
    requires i < |bs| ==> bs[i] < 128
    ensures DecodeVarint(bs, limit) ==
            if i < |bs| && i < limit then Some(Read(Base128(bs[..i + 1]), bs[i + 1..])) else None
  {
    if limit > 0 && bs != [] {
      if i == 0 {
        assert bs[..1] == [bs[0]] && Base128([bs[0]]) == bs[0] % 128 + 128 * Base128([]);
      } else {
        WhenVarintDecodes(bs[1..], limit - 1, i - 1);
        if i < |bs| {
          assert bs[..i + 1][1..] == bs[1..][..i];
          assert bs[i + 1..] == bs[1..][i..];
        }
      }
    }
  }

  // ----- Numbers -----

  predicate IsInt32(n: int) {
    -TWO_31 <= n < TWO_31
  }

  predicate IsInt64(n: int) {
    -TWO_63 <= n < TWO_63
  }

  function Signed32(u: nat): int {
    var w := u % TWO_32;
    if w < TWO_31 then w else w - TWO_32
  }

  function Signed64(u: nat): int {
    var w := u % TWO_64;
    if w < TWO_63 then w else w - TWO_64
  }

  /** Negative numbers, of either width, are written as 64-bit two's complement. */
  function Unsigned(n: int): nat
    requires IsInt64(n)
  {
    if n < 0 then n + TWO_64 else n
  }

  lemma SignsRoundTrip(n: int)
    requires IsInt64(n)
    ensures Unsigned(n) < TWO_64 && Signed64(Unsigned(n)) == n
    ensures IsInt32(n) ==> Signed32(Unsigned(n)) == n
  {
  }

  /** A number is read as the one in range that agrees with what was sent in the low 32 or 64 bits. */
  lemma SignsAgree(u: nat)
    ensures -2147483648 <= Signed32(u) < 2147483648 && Signed32(u) % 4294967296 == u % 4294967296
    ensures -9223372036854775808 <= Signed64(u) < 9223372036854775808
    ensures Signed64(u) % 18446744073709551616 == u % 18446744073709551616
  {
  }

  // ----- Strings -----

  predicate Continuation(b: byte) {
    0x80 <= b <= 0xbf
  }

  /** UTF-8 as in section 4 of RFC 3629. */
  predicate IsUtf8(s: seq<byte>) {
    if s == [] then true
    else if s[0] <= 0x7f then IsUtf8(s[1..])
    else if 0xc2 <= s[0] <= 0xdf then
      |s| >= 2 && Continuation(s[1]) && IsUtf8(s[2..])
    else if 0xe0 <= s[0] <= 0xef then
      && |s| >= 3 && Continuation(s[1]) && Continuation(s[2])
      && (s[0] == 0xe0 ==> s[1] >= 0xa0) && (s[0] == 0xed ==> s[1] <= 0x9f)
      && IsUtf8(s[3..])
    else if 0xf0 <= s[0] <= 0xf4 then
      && |s| >= 4 && Continuation(s[1]) && Continuation(s[2]) && Continuation(s[3])
      && (s[0] == 0xf0 ==> s[1] >= 0x90) && (s[0] == 0xf4 ==> s[1] <= 0x8f)
      && IsUtf8(s[4..])
    else false
  }

  /** The code points that UTF-8 can encode: all but the surrogates. */
  predicate IsScalar(c: nat) {
    c < 0xd800 || 0xe000 <= c <= 0x10ffff
  }

  /** Section 3 of RFC 3629: the bits of a code point, six to each continuation byte. */
  function EncodeScalar(c: nat): seq<byte>
    requires IsScalar(c)
  {
    if c < 0x80 then [c]
    else if c < 0x800 then [0xc0 + c / 64, 0x80 + c % 64]
    else if c < 0x10000 then [0xe0 + c / 4096, 0x80 + c / 64 % 64, 0x80 + c % 64]
    else [0xf0 + c / 262144, 0x80 + c / 4096 % 64, 0x80 + c / 64 % 64, 0x80 + c % 64]
  }

  ghost predicate AllScalars(cs: seq<nat>) {
    forall i :: 0 <= i < |cs| ==> IsScalar(cs[i])
  }

  function EncodeText(cs: seq<nat>): seq<byte>
    requires forall i :: 0 <= i < |cs| ==> IsScalar(cs[i])
  {
    if cs == [] then [] else EncodeScalar(cs[0]) + EncodeText(cs[1..])
  }

  lemma ShortIsUtf8(c: nat, code: seq<byte>, rest: seq<byte>)
    requires c < 0x800 && IsScalar(c) && code == EncodeScalar(c) && IsUtf8(rest)
    ensures IsUtf8(code + rest)
  {
    assert (code + rest)[|code|..] == rest;
  }

  lemma ThreeIsUtf8(c: nat, code: seq<byte>, rest: seq<byte>)
    requires 0x800 <= c < 0x10000 && IsScalar(c) && code == EncodeScalar(c) && IsUtf8(rest)
    ensures IsUtf8(code + rest)
  {
    assert (code + rest)[|code|..] == rest;
  }

  lemma FourIsUtf8(c: nat, code: seq<byte>, rest: seq<byte>)
    requires 0x10000 <= c && IsScalar(c) && code == EncodeScalar(c) && IsUtf8(rest)
    ensures IsUtf8(code + rest)
  {
    assert (code + rest)[|code|..] == rest;
  }

  lemma ScalarIsUtf8(c: nat, rest: seq<byte>)
    requires IsScalar(c) && IsUtf8(rest)
    ensures IsUtf8(EncodeScalar(c) + rest)
  {
    if c < 0x800 {
      ShortIsUtf8(c, EncodeScalar(c), rest);
    } else if c < 0x10000 {
      ThreeIsUtf8(c, EncodeScalar(c), rest);
    } else {
      FourIsUtf8(c, EncodeScalar(c), rest);
    }
  }

  lemma TwoBytes(a: int, b: int) returns (c: nat)
    requires 0xc2 <= a <= 0xdf && 0x80 <= b <= 0xbf
    ensures IsScalar(c) && EncodeScalar(c) == [a, b]
  {
    c := (a - 0xc0) * 64 + (b - 0x80);
  }

  lemma ThreeBytes(a: int, b: int, d: int) returns (c: nat)
    requires 0xe0 <= a <= 0xef && 0x80 <= b <= 0xbf && 0x80 <= d <= 0xbf
    requires (a == 0xe0 ==> b >= 0xa0) && (a == 0xed ==> b <= 0x9f)
    ensures IsScalar(c) && EncodeScalar(c) == [a, b, d]
  {
    var high := (a - 0xe0) * 64 + (b - 0x80);
    c := high * 64 + (d - 0x80);
    assert c / 64 == high && c % 64 == d - 0x80;
    assert high / 64 == a - 0xe0 && high % 64 == b - 0x80 && c / 4096 == high / 64;
  }

  lemma FourBytes(a: int, b: int, d: int, e: int) returns (c: nat)
    requires 0xf0 <= a <= 0xf4 && 0x80 <= b <= 0xbf && 0x80 <= d <= 0xbf && 0x80 <= e <= 0xbf
    requires (a == 0xf0 ==> b >= 0x90) && (a == 0xf4 ==> b <= 0x8f)
    ensures IsScalar(c) && EncodeScalar(c) == [a, b, d, e]
  {
    var high := (a - 0xf0) * 64 + (b - 0x80);
    var mid := high * 64 + (d - 0x80);
    c := mid * 64 + (e - 0x80);
    assert c / 64 == mid && c % 64 == e - 0x80;
    assert mid / 64 == high && mid % 64 == d - 0x80 && c / 4096 == mid / 64;
    assert high / 64 == a - 0xf0 && high % 64 == b - 0x80 && c / 262144 == high / 64;
  }

  lemma Utf8BeginsWithScalar(s: seq<byte>) returns (c: nat)
    requires s != [] && IsUtf8(s)
    ensures IsScalar(c)
    ensures var code := EncodeScalar(c);
            |code| <= |s| && s == code + s[|code|..] && IsUtf8(s[|code|..])
  {
    if s[0] <= 0x7f {
      c := s[0];
    } else if s[0] <= 0xdf {
      c := TwoBytes(s[0], s[1]);
    } else if s[0] <= 0xef {
      c := ThreeBytes(s[0], s[1], s[2]);
    } else {
      c := FourBytes(s[0], s[1], s[2], s[3]);
    }
  }

  lemma {:induction false} Utf8Decodes(s: seq<byte>) returns (cs: seq<nat>)
    requires IsUtf8(s)
    ensures AllScalars(cs) && EncodeText(cs) == s
    decreases |s|
  {
    if s == [] {
      return [];
    }
    var c := Utf8BeginsWithScalar(s);
    var code := EncodeScalar(c);
    var rest := Utf8Decodes(s[|code|..]);
    cs := [c] + rest;
    assert cs[1..] == rest;
  }

  lemma {:induction false} TextIsUtf8(cs: seq<nat>)
    requires AllScalars(cs)
    ensures IsUtf8(EncodeText(cs))
  {
    if cs != [] {
      TextIsUtf8(cs[1..]);
      ScalarIsUtf8(cs[0], EncodeText(cs[1..]));
    }
  }

  /** A string is UTF-8 exactly if it is the encoding of some code points. */
  lemma Utf8IsEncodedText(s: seq<byte>)
    ensures IsUtf8(s) <==> exists cs :: AllScalars(cs) && EncodeText(cs) == s
  {
    if IsUtf8(s) {
      var cs := Utf8Decodes(s);
    }
    if cs :| AllScalars(cs) && EncodeText(cs) == s {
      TextIsUtf8(cs);
    }
  }

  function EncodeString(s: seq<byte>): seq<byte> {
    EncodeVarint(|s|) + s
  }

  function DecodeString(bs: seq<byte>): (r: Option<Read<seq<byte>>>)
    ensures r.Some? ==> |r.value.rest| < |bs|
  {
    match DecodeVarint(bs, 5)
    case None => None
    case Some(size) =>
      if size.got > MAX_SIZE || size.got > |size.rest| then None
      else Some(Read(size.rest[..size.got], size.rest[size.got..]))
  }

  lemma StringRoundTrip(s: seq<byte>, tail: seq<byte>)
    requires |s| <= MAX_SIZE
    ensures DecodeString(EncodeString(s) + tail) == Some(Read(s, tail))
  {
    SizesInUse(|s|);
    VarintRoundTrip(|s|, 5, s + tail);
    assert EncodeString(s) + tail == EncodeVarint(|s|) + (s + tail);
    assert (s + tail)[..|s|] == s && (s + tail)[|s|..] == tail;
  }

  /** A string is read exactly if its length is at most 2147483631 and as many bytes follow. */
  lemma WhenStringDecodes(size: nat, tail: seq<byte>)
    requires VarintSize(size) <= 5
    ensures DecodeString(EncodeVarint(size) + tail) ==
            if size <= 2147483631 && size <= |tail| then Some(Read(tail[..size], tail[size..])) else None
  {
    VarintRoundTrip(size, 5, tail);
  }

  lemma DecodeStringExtends(bs: seq<byte>, tail: seq<byte>)
    requires DecodeString(bs).Some?
    ensures DecodeString(bs + tail) == Some(Read(DecodeString(bs).value.got, DecodeString(bs).value.rest + tail))
  {
    DecodeExtends(bs, 5, tail);
    var size := DecodeVarint(bs, 5).value;
    assert (size.rest + tail)[..size.got] == size.rest[..size.got];
    assert (size.rest + tail)[size.got..] == size.rest[size.got..] + tail;
  }
}
