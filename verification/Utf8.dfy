/** UTF-8 as section 3 of RFC 3629 defines it: decoding one scalar, validating text, appending a scalar. */
module Utf8 {
  import opened Basics

  type Byte = bv8
  type CodePoint = bv32

  datatype DecodedScalar = DecodedScalar(value: CodePoint, byteCount: nat)

  predicate IsScalarValue(v: CodePoint) {
    v <= 0x10FFFF && (v < 0xD800 || v > 0xDFFF)
  }

  /** The code points up to U+10FFFF that are not surrogates. */
  lemma ScalarValuesExactly(v: CodePoint)
    ensures IsScalarValue(v) <==> v < 0xD800 || 0xE000 <= v < 0x11_0000
  {
  }

  /** Sequence length announced by a leading byte; zero when it announces none. */
  function SequenceLength(lead: Byte): nat {
    if lead < 0x80 then 1
    else if lead & 0xE0 == 0xC0 then 2
    else if lead & 0xF0 == 0xE0 then 3
    else if lead & 0xF8 == 0xF0 then 4
    else 0
  }

  function LeadingPayload(lead: Byte): CodePoint {
    if lead < 0x80 then lead as bv32
    else if lead & 0xE0 == 0xC0 then (lead & 0x1F) as bv32
    else if lead & 0xF0 == 0xE0 then (lead & 0x0F) as bv32
    else (lead & 0x07) as bv32
  }

  /** Smallest scalar that needs a sequence of this length. */
  function MinimumFor(length: nat): CodePoint {
    if length <= 1 then 0 else if length == 2 then 0x80 else if length == 3 then 0x800 else 0x10000
  }

  predicate IsContinuation(b: Byte) {
    b & 0xC0 == 0x80
  }

  function AppendPayload(v: CodePoint, b: Byte): CodePoint {
    (v << 6) | ((b & 0x3F) as bv32)
  }

  /** The value of a leading payload followed by continuation bytes. */
  function Gather(payload: CodePoint, continuations: seq<Byte>): Option<CodePoint> {
    if continuations == [] then Some(payload)
    else
      var last := |continuations| - 1;
      var before := Gather(payload, continuations[..last]);
      if before.None? || !IsContinuation(continuations[last]) then None
      else Some(AppendPayload(before.value, continuations[last]))
  }

  function Decode(input: seq<Byte>): Option<DecodedScalar> {
    if input == [] || SequenceLength(input[0]) == 0 || |input| < SequenceLength(input[0]) then None
    else
      var length := SequenceLength(input[0]);
      var v := Gather(LeadingPayload(input[0]), input[1..length]);
      if v.None? || v.value < MinimumFor(length) || !IsScalarValue(v.value) then None
      else Some(DecodedScalar(v.value, length))
  }

  function Encode(v: CodePoint): seq<Byte>
    requires IsScalarValue(v)
  {
    if v < 0x80 then [v as bv8]
    else if v < 0x800 then TwoBytes(v)
    else if v < 0x10000 then ThreeBytes(v)
    else FourBytes(v)
  }

  function Pair(a: Byte, b: Byte): seq<Byte> {
    [a, b]
  }

  function Triple(a: Byte, b: Byte, c: Byte): seq<Byte> {
    [a, b, c]
  }

  function Quadruple(a: Byte, b: Byte, c: Byte, d: Byte): seq<Byte> {
    [a, b, c, d]
  }

  function TwoBytes(v: CodePoint): seq<Byte>
    requires v < 0x800
  {
    Pair((0xC0 | (v >> 6)) as bv8, (0x80 | (v & 0x3F)) as bv8)
  }

  function ThreeBytes(v: CodePoint): seq<Byte>
    requires v < 0x10000
  {
    Triple((0xE0 | (v >> 12)) as bv8, (0x80 | ((v >> 6) & 0x3F)) as bv8, (0x80 | (v & 0x3F)) as bv8)
  }

  function FourBytes(v: CodePoint): seq<Byte>
    requires v <= 0x10FFFF
  {
    Quadruple((0xF0 | (v >> 18)) as bv8, (0x80 | ((v >> 12) & 0x3F)) as bv8,
              (0x80 | ((v >> 6) & 0x3F)) as bv8, (0x80 | (v & 0x3F)) as bv8)
  }

  // ---- The program's loops ----

  method DecodeOne(input: seq<Byte>) returns (r: Option<DecodedScalar>)
    ensures r == Decode(input)
  {
    if input == [] {
      return None;
    }
    var lead := input[0];
    if lead < 0x80 {
      return Some(DecodedScalar(lead as bv32, 1));
    }
    var length: nat;
    var codePoint: CodePoint;
    var minimum: CodePoint;
    if lead & 0xE0 == 0xC0 {
      length, codePoint, minimum := 2, (lead & 0x1F) as bv32, 0x80;
    } else if lead & 0xF0 == 0xE0 {
      length, codePoint, minimum := 3, (lead & 0x0F) as bv32, 0x800;
    } else if lead & 0xF8 == 0xF0 {
      length, codePoint, minimum := 4, (lead & 0x07) as bv32, 0x10000;
    } else {
      return None;
    }
    if |input| < length {
      return None;
    }
    var gathered := GatherContinuations(codePoint, input[1..length]);
    if gathered.None? {
      return None;
    }
    codePoint := gathered.value;
    if codePoint < minimum || !IsScalarValue(codePoint) {
      return None;
    }
    return Some(DecodedScalar(codePoint, length));
  }

  /** The inner loop: six payload bits a byte, until a byte is not a continuation. */
  method GatherContinuations(payload: CodePoint, bytes: seq<Byte>) returns (r: Option<CodePoint>)
    ensures r == Gather(payload, bytes)
  {
    var codePoint := payload;
    for k := 0 to |bytes|
      invariant Gather(payload, bytes[..k]) == Some(codePoint)
    {
      assert bytes[..k + 1][..k] == bytes[..k];
      if !IsContinuation(bytes[k]) {
        GatherStops(payload, bytes, k + 1);
        return None;
      }
      codePoint := AppendPayload(codePoint, bytes[k]);
    }
    assert bytes[..|bytes|] == bytes;
    return Some(codePoint);
  }

  /** One byte that is not a continuation spoils the whole sequence. */
  lemma {:induction false} GatherStops(payload: CodePoint, bytes: seq<Byte>, k: nat)
    requires 1 <= k <= |bytes| && !IsContinuation(bytes[k - 1])
    ensures Gather(payload, bytes).None?
    decreases |bytes|
  {
    if k < |bytes| {
      GatherStops(payload, bytes[..|bytes| - 1], k);
    }
  }

  method IsValid(input: seq<Byte>) returns (valid: bool)
    ensures valid == WellFormed(input)
  {
    var index := 0;
    while index < |input|
      invariant index <= |input|
      invariant WellFormed(input) == WellFormed(input[index..])
    {
      var scalar := DecodeOne(input[index..]);
      if scalar.None? {
        return false;
      }
      assert input[index..][scalar.value.byteCount..] == input[index + scalar.value.byteCount..];
      index := index + scalar.value.byteCount;
    }
    return true;
  }

  /** Appends the canonical encoding, or leaves the text as it was. */
  method AppendCodePoint(output: seq<Byte>, v: CodePoint) returns (ok: bool, appended: seq<Byte>)
    ensures ok == IsScalarValue(v)
    ensures appended == if ok then output + Encode(v) else output
  {
    if !IsScalarValue(v) {
      return false, output;
    }
    appended := output;
    if v < 0x80 {
      appended := appended + [v as bv8];
    } else if v < 0x800 {
      appended := appended + [(0xC0 | (v >> 6)) as bv8];
      appended := appended + [(0x80 | (v & 0x3F)) as bv8];
    } else if v < 0x10000 {
      appended := appended + [(0xE0 | (v >> 12)) as bv8];
      appended := appended + [(0x80 | ((v >> 6) & 0x3F)) as bv8];
      appended := appended + [(0x80 | (v & 0x3F)) as bv8];
    } else {
      appended := appended + [(0xF0 | (v >> 18)) as bv8];
      appended := appended + [(0x80 | ((v >> 12) & 0x3F)) as bv8];
      appended := appended + [(0x80 | ((v >> 6) & 0x3F)) as bv8];
      appended := appended + [(0x80 | (v & 0x3F)) as bv8];
    }
    ok := true;
  }

  // ---- Gathering, length by length ----

  lemma GatherTwo(p: CodePoint, a: Byte)
    ensures Gather(p, [a]) == if IsContinuation(a) then Some(AppendPayload(p, a)) else None
  {
    assert [a][..0] == [];
  }

  lemma GatherThree(p: CodePoint, a: Byte, b: Byte)
    ensures Gather(p, [a, b]) ==
      if IsContinuation(a) && IsContinuation(b) then Some(AppendPayload(AppendPayload(p, a), b)) else None
  {
    GatherTwo(p, a);
    assert [a, b][..1] == [a];
  }

  lemma GatherFour(p: CodePoint, a: Byte, b: Byte, c: Byte)
    ensures Gather(p, [a, b, c]) ==
      if IsContinuation(a) && IsContinuation(b) && IsContinuation(c)
      then Some(AppendPayload(AppendPayload(AppendPayload(p, a), b), c)) else None
  {
    GatherThree(p, a, b);
    assert [a, b, c][..2] == [a, b];
  }

  // ---- Bit patterns, length by length ----

  lemma TwoByteBits(v: CodePoint, a: Byte, b: Byte)
    requires 0x80 <= v < 0x800 && a as bv32 == 0xC0 | (v >> 6) && b as bv32 == 0x80 | (v & 0x3F)
    ensures a >= 0x80 && a & 0xE0 == 0xC0 && IsContinuation(b)
    ensures AppendPayload((a & 0x1F) as bv32, b) == v
  {
  }

  lemma ThreeByteBits(v: CodePoint, a: Byte, b: Byte, c: Byte)
    requires 0x800 <= v < 0x10000
    requires a as bv32 == 0xE0 | (v >> 12) && b as bv32 == 0x80 | ((v >> 6) & 0x3F) && c as bv32 == 0x80 | (v & 0x3F)
    ensures a >= 0x80 && a & 0xE0 != 0xC0 && a & 0xF0 == 0xE0 && IsContinuation(b) && IsContinuation(c)
    ensures AppendPayload(AppendPayload((a & 0x0F) as bv32, b), c) == v
  {
  }

  lemma FourByteBits(v: CodePoint, a: Byte, b: Byte, c: Byte, d: Byte)
    requires 0x10000 <= v <= 0x10FFFF
    requires a as bv32 == 0xF0 | (v >> 18) && b as bv32 == 0x80 | ((v >> 12) & 0x3F)
    requires c as bv32 == 0x80 | ((v >> 6) & 0x3F) && d as bv32 == 0x80 | (v & 0x3F)
    ensures a >= 0x80 && a & 0xE0 != 0xC0 && a & 0xF0 != 0xE0 && a & 0xF8 == 0xF0
    ensures IsContinuation(b) && IsContinuation(c) && IsContinuation(d)
    ensures AppendPayload(AppendPayload(AppendPayload((a & 0x07) as bv32, b), c), d) == v
  {
  }

  lemma TwoByteValue(v: CodePoint, a: Byte, b: Byte)
    requires a & 0xE0 == 0xC0 && IsContinuation(b) && v == AppendPayload((a & 0x1F) as bv32, b)
    ensures v < 0x800 && a as bv32 == 0xC0 | (v >> 6) && b as bv32 == 0x80 | (v & 0x3F)
  {
  }

  lemma ThreeByteValue(v: CodePoint, a: Byte, b: Byte, c: Byte)
    requires a & 0xF0 == 0xE0 && IsContinuation(b) && IsContinuation(c)
    requires v == AppendPayload(AppendPayload((a & 0x0F) as bv32, b), c)
    ensures v < 0x10000 && a as bv32 == 0xE0 | (v >> 12) && b as bv32 == 0x80 | ((v >> 6) & 0x3F)
    ensures c as bv32 == 0x80 | (v & 0x3F)
  {
  }

  lemma FourByteValue(v: CodePoint, a: Byte, b: Byte, c: Byte, d: Byte)
    requires a & 0xF8 == 0xF0 && IsContinuation(b) && IsContinuation(c) && IsContinuation(d)
    requires v == AppendPayload(AppendPayload(AppendPayload((a & 0x07) as bv32, b), c), d)
    ensures a as bv32 == 0xF0 | (v >> 18) && b as bv32 == 0x80 | ((v >> 12) & 0x3F)
    ensures c as bv32 == 0x80 | ((v >> 6) & 0x3F) && d as bv32 == 0x80 | (v & 0x3F)
  {
  }

  // ---- Encodings by their bits ----

  lemma TwoByteShape(v: CodePoint) returns (a: Byte, b: Byte)
    requires 0x80 <= v < 0x800
    ensures a as bv32 == 0xC0 | (v >> 6) && b as bv32 == 0x80 | (v & 0x3F)
  {
    a, b := (0xC0 | (v >> 6)) as bv8, (0x80 | (v & 0x3F)) as bv8;
  }

  lemma ThreeByteShape(v: CodePoint) returns (a: Byte, b: Byte, c: Byte)
    requires 0x800 <= v < 0x10000
    ensures a as bv32 == 0xE0 | (v >> 12) && b as bv32 == 0x80 | ((v >> 6) & 0x3F) && c as bv32 == 0x80 | (v & 0x3F)
  {
    a, b, c := (0xE0 | (v >> 12)) as bv8, (0x80 | ((v >> 6) & 0x3F)) as bv8, (0x80 | (v & 0x3F)) as bv8;
  }

  lemma FourByteShape(v: CodePoint) returns (a: Byte, b: Byte, c: Byte, d: Byte)
    requires 0x10000 <= v <= 0x10FFFF
    ensures a as bv32 == 0xF0 | (v >> 18) && b as bv32 == 0x80 | ((v >> 12) & 0x3F)
    ensures c as bv32 == 0x80 | ((v >> 6) & 0x3F) && d as bv32 == 0x80 | (v & 0x3F)
  {
    a, b := (0xF0 | (v >> 18)) as bv8, (0x80 | ((v >> 12) & 0x3F)) as bv8;
    c, d := (0x80 | ((v >> 6) & 0x3F)) as bv8, (0x80 | (v & 0x3F)) as bv8;
  }

  lemma EncodesTwo(v: CodePoint, a: Byte, b: Byte)
    requires v < 0x800 && a as bv32 == 0xC0 | (v >> 6) && b as bv32 == 0x80 | (v & 0x3F)
    ensures TwoBytes(v) == Pair(a, b)
  {
  }

  lemma EncodesThree(v: CodePoint, a: Byte, b: Byte, c: Byte)
    requires v < 0x10000
    requires a as bv32 == 0xE0 | (v >> 12) && b as bv32 == 0x80 | ((v >> 6) & 0x3F) && c as bv32 == 0x80 | (v & 0x3F)
    ensures ThreeBytes(v) == Triple(a, b, c)
  {
  }

  lemma EncodesFour(v: CodePoint, a: Byte, b: Byte, c: Byte, d: Byte)
    requires v <= 0x10FFFF
    requires a as bv32 == 0xF0 | (v >> 18) && b as bv32 == 0x80 | ((v >> 12) & 0x3F)
    requires c as bv32 == 0x80 | ((v >> 6) & 0x3F) && d as bv32 == 0x80 | (v & 0x3F)
    ensures FourBytes(v) == Quadruple(a, b, c, d)
  {
  }

  // ---- Inverses ----

  lemma DecodeTwo(v: CodePoint, a: Byte, b: Byte, rest: seq<Byte>)
    requires 0x80 <= v < 0x800 && a as bv32 == 0xC0 | (v >> 6) && b as bv32 == 0x80 | (v & 0x3F)
    ensures Decode(Pair(a, b) + rest) == Some(DecodedScalar(v, 2))
  {
    TwoByteBits(v, a, b);
    assert (Pair(a, b) + rest)[1..2] == [b];
    GatherTwo(LeadingPayload(a), b);
  }

  lemma DecodeThree(v: CodePoint, a: Byte, b: Byte, c: Byte, rest: seq<Byte>)
    requires 0x800 <= v < 0x10000 && IsScalarValue(v)
    requires a as bv32 == 0xE0 | (v >> 12) && b as bv32 == 0x80 | ((v >> 6) & 0x3F) && c as bv32 == 0x80 | (v & 0x3F)
    ensures Decode(Triple(a, b, c) + rest) == Some(DecodedScalar(v, 3))
  {
    ThreeByteBits(v, a, b, c);
    assert (Triple(a, b, c) + rest)[1..3] == [b, c];
    GatherThree(LeadingPayload(a), b, c);
  }

  lemma DecodeFour(v: CodePoint, a: Byte, b: Byte, c: Byte, d: Byte, rest: seq<Byte>)
    requires 0x10000 <= v <= 0x10FFFF
    requires a as bv32 == 0xF0 | (v >> 18) && b as bv32 == 0x80 | ((v >> 12) & 0x3F)
    requires c as bv32 == 0x80 | ((v >> 6) & 0x3F) && d as bv32 == 0x80 | (v & 0x3F)
    ensures Decode(Quadruple(a, b, c, d) + rest) == Some(DecodedScalar(v, 4))
  {
    FourByteBits(v, a, b, c, d);
    assert (Quadruple(a, b, c, d) + rest)[1..4] == [b, c, d];
    GatherFour(LeadingPayload(a), b, c, d);
  }

  lemma DecodeTwoBytes(v: CodePoint, rest: seq<Byte>)
    requires 0x80 <= v < 0x800 && IsScalarValue(v)
    ensures Decode(TwoBytes(v) + rest) == Some(DecodedScalar(v, 2)) && |TwoBytes(v)| == 2
  {
    var a, b := TwoByteShape(v);
    EncodesTwo(v, a, b);
    DecodeTwo(v, a, b, rest);
  }

  lemma DecodeThreeBytes(v: CodePoint, rest: seq<Byte>)
    requires 0x800 <= v < 0x10000 && IsScalarValue(v)
    ensures Decode(ThreeBytes(v) + rest) == Some(DecodedScalar(v, 3)) && |ThreeBytes(v)| == 3
  {
    var a, b, c := ThreeByteShape(v);
    EncodesThree(v, a, b, c);
    DecodeThree(v, a, b, c, rest);
  }

  lemma DecodeFourBytes(v: CodePoint, rest: seq<Byte>)
    requires 0x10000 <= v <= 0x10FFFF && IsScalarValue(v)
    ensures Decode(FourBytes(v) + rest) == Some(DecodedScalar(v, 4)) && |FourBytes(v)| == 4
  {
    var a, b, c, d := FourByteShape(v);
    EncodesFour(v, a, b, c, d);
    DecodeFour(v, a, b, c, d, rest);
  }

  /** An appended scalar is decoded again with its length, whatever bytes follow. */
  lemma DecodeEncode(v: CodePoint, rest: seq<Byte>)
    requires IsScalarValue(v)
    ensures Decode(Encode(v) + rest) == Some(DecodedScalar(v, |Encode(v)|))
  {
    if v < 0x80 {
      DecodeAscii(v as bv8, rest);
    } else if v < 0x800 {
      DecodeTwoBytes(v, rest);
    } else if v < 0x10000 {
      DecodeThreeBytes(v, rest);
    } else {
      DecodeFourBytes(v, rest);
    }
  }

  lemma DecodeAscii(a: Byte, rest: seq<Byte>)
    requires a < 0x80
    ensures Decode([a] + rest) == Some(DecodedScalar(a as bv32, 1))
  {
    assert ([a] + rest)[1..1] == [];
  }

  /** Whatever decodes is the canonical encoding of what it decodes to. */
  lemma EncodeDecode(input: seq<Byte>)
    requires Decode(input).Some?
    ensures var s := Decode(input).value;
      IsScalarValue(s.value) && 1 <= s.byteCount <= |input| && Encode(s.value) == input[..s.byteCount]
  {
    var v, n, a := Decode(input).value.value, Decode(input).value.byteCount, input[0];
    if n == 1 {
      assert input[1..1] == [];
      assert input[..1] == [a];
    } else if n == 2 {
      EncodeTwo(input, v);
    } else if n == 3 {
      EncodeThree(input, v);
    } else {
      EncodeFour(input, v);
    }
  }

  lemma ReadTwo(input: seq<Byte>, v: CodePoint)
    requires Decode(input) == Some(DecodedScalar(v, 2))
    ensures |input| >= 2
    ensures 0x80 <= v && IsScalarValue(v) && input[0] & 0xE0 == 0xC0 && IsContinuation(input[1])
    ensures v == AppendPayload((input[0] & 0x1F) as bv32, input[1])
  {
    assert input[1..2] == [input[1]];
    GatherTwo(LeadingPayload(input[0]), input[1]);
  }

  lemma FirstTwo(input: seq<Byte>)
    requires |input| >= 2
    ensures input[..2] == Pair(input[0], input[1])
  {
  }

  lemma DecodedTwo(input: seq<Byte>, v: CodePoint) returns (a: Byte, b: Byte)
    requires Decode(input) == Some(DecodedScalar(v, 2))
    ensures |input| >= 2 && input[..2] == Pair(a, b)
    ensures 0x80 <= v && IsScalarValue(v) && a & 0xE0 == 0xC0 && IsContinuation(b)
    ensures v == AppendPayload((a & 0x1F) as bv32, b)
  {
    ReadTwo(input, v);
    FirstTwo(input);
    a, b := input[0], input[1];
  }

  lemma EncodeTwo(input: seq<Byte>, v: CodePoint)
    requires Decode(input) == Some(DecodedScalar(v, 2))
    ensures 0x80 <= v < 0x800 && |input| >= 2 && TwoBytes(v) == input[..2]
  {
    var a, b := DecodedTwo(input, v);
    ReencodeTwo(v, a, b);
  }

  lemma ReencodeTwo(v: CodePoint, a: Byte, b: Byte)
    requires IsScalarValue(v) && a & 0xE0 == 0xC0 && IsContinuation(b)
    requires v == AppendPayload((a & 0x1F) as bv32, b)
    ensures v < 0x800 && TwoBytes(v) == Pair(a, b)
  {
    TwoByteValue(v, a, b);
    EncodesTwo(v, a, b);
  }

  lemma ReadThree(input: seq<Byte>, v: CodePoint)
    requires Decode(input) == Some(DecodedScalar(v, 3))
    ensures |input| >= 3
    ensures 0x800 <= v && IsScalarValue(v) && input[0] & 0xF0 == 0xE0 && IsContinuation(input[1])
    ensures IsContinuation(input[2])
    ensures v == AppendPayload(AppendPayload((input[0] & 0x0F) as bv32, input[1]), input[2])
  {
    assert input[1..3] == [input[1], input[2]];
    GatherThree(LeadingPayload(input[0]), input[1], input[2]);
  }

  lemma FirstThree(input: seq<Byte>)
    requires |input| >= 3
    ensures input[..3] == Triple(input[0], input[1], input[2])
  {
  }

  lemma DecodedThree(input: seq<Byte>, v: CodePoint) returns (a: Byte, b: Byte, c: Byte)
    requires Decode(input) == Some(DecodedScalar(v, 3))
    ensures |input| >= 3 && input[..3] == Triple(a, b, c)
    ensures 0x800 <= v && IsScalarValue(v) && a & 0xF0 == 0xE0 && IsContinuation(b) && IsContinuation(c)
    ensures v == AppendPayload(AppendPayload((a & 0x0F) as bv32, b), c)
  {
    ReadThree(input, v);
    FirstThree(input);
    a, b, c := input[0], input[1], input[2];
  }

  lemma EncodeThree(input: seq<Byte>, v: CodePoint)
    requires Decode(input) == Some(DecodedScalar(v, 3))
    ensures 0x800 <= v < 0x10000 && |input| >= 3 && ThreeBytes(v) == input[..3]
  {
    var a, b, c := DecodedThree(input, v);
    ReencodeThree(v, a, b, c);
  }

  lemma ReencodeThree(v: CodePoint, a: Byte, b: Byte, c: Byte)
    requires IsScalarValue(v) && a & 0xF0 == 0xE0 && IsContinuation(b) && IsContinuation(c)
    requires v == AppendPayload(AppendPayload((a & 0x0F) as bv32, b), c)
    ensures v < 0x10000 && ThreeBytes(v) == Triple(a, b, c)
  {
    ThreeByteValue(v, a, b, c);
    EncodesThree(v, a, b, c);
  }

  lemma ReadFour(input: seq<Byte>, v: CodePoint)
    requires Decode(input) == Some(DecodedScalar(v, 4))
    ensures |input| >= 4
    ensures 0x10000 <= v && IsScalarValue(v) && input[0] & 0xF8 == 0xF0 && IsContinuation(input[1])
    ensures IsContinuation(input[2]) && IsContinuation(input[3])
    ensures v == AppendPayload(AppendPayload(AppendPayload((input[0] & 0x07) as bv32, input[1]), input[2]), input[3])
  {
    assert input[1..4] == [input[1], input[2], input[3]];
    GatherFour(LeadingPayload(input[0]), input[1], input[2], input[3]);
  }

  lemma FirstFour(input: seq<Byte>)
    requires |input| >= 4
    ensures input[..4] == Quadruple(input[0], input[1], input[2], input[3])
  {
  }

  lemma DecodedFour(input: seq<Byte>, v: CodePoint) returns (a: Byte, b: Byte, c: Byte, d: Byte)
    requires Decode(input) == Some(DecodedScalar(v, 4))
    ensures |input| >= 4 && input[..4] == Quadruple(a, b, c, d)
    ensures 0x10000 <= v && IsScalarValue(v) && a & 0xF8 == 0xF0 && IsContinuation(b) && IsContinuation(c)
    ensures IsContinuation(d)
    ensures v == AppendPayload(AppendPayload(AppendPayload((a & 0x07) as bv32, b), c), d)
  {
    ReadFour(input, v);
    FirstFour(input);
    a, b, c, d := input[0], input[1], input[2], input[3];
  }

  lemma EncodeFour(input: seq<Byte>, v: CodePoint)
    requires Decode(input) == Some(DecodedScalar(v, 4))
    ensures 0x10000 <= v <= 0x10FFFF && |input| >= 4 && FourBytes(v) == input[..4]
  {
    var a, b, c, d := DecodedFour(input, v);
    ReencodeFour(v, a, b, c, d);
  }

  lemma ReencodeFour(v: CodePoint, a: Byte, b: Byte, c: Byte, d: Byte)
    requires IsScalarValue(v) && a & 0xF8 == 0xF0 && IsContinuation(b) && IsContinuation(c) && IsContinuation(d)
    requires v == AppendPayload(AppendPayload(AppendPayload((a & 0x07) as bv32, b), c), d)
    ensures v <= 0x10FFFF && FourBytes(v) == Quadruple(a, b, c, d)
  {
    FourByteValue(v, a, b, c, d);
    EncodesFour(v, a, b, c, d);
  }

  /** Only the bytes of the scalar itself decide how it decodes. */
  lemma DecodeIsLocal(x: seq<Byte>, y: seq<Byte>)
    requires Decode(x).Some?
    requires var n := Decode(x).value.byteCount; n <= |x| && n <= |y| && y[..n] == x[..n]
    ensures Decode(y) == Decode(x)
  {
    var d := Decode(x).value;
    EncodeDecode(x);
    DecodeEncode(d.value, y[d.byteCount..]);
    assert y == Encode(d.value) + y[d.byteCount..];
  }

  /** A multi-byte scalar contains no ASCII byte. */
  lemma MultibyteIsHigh(input: seq<Byte>)
    requires Decode(input).Some? && input[0] >= 0x80
    ensures var n := Decode(input).value.byteCount; n <= |input| && forall i :: 0 <= i < n ==> input[i] >= 0x80
  {
    var v, n := Decode(input).value.value, Decode(input).value.byteCount;
    if n == 2 {
      var a, b := DecodedTwo(input, v);
      ContinuationIsHigh(b);
      assert forall i :: 0 <= i < n ==> input[i] == input[..n][i];
    } else if n == 3 {
      var a, b, c := DecodedThree(input, v);
      ContinuationIsHigh(b);
      ContinuationIsHigh(c);
      assert forall i :: 0 <= i < n ==> input[i] == input[..n][i];
    } else if n == 4 {
      var a, b, c, d := DecodedFour(input, v);
      ContinuationIsHigh(b);
      ContinuationIsHigh(c);
      ContinuationIsHigh(d);
      assert forall i :: 0 <= i < n ==> input[i] == input[..n][i];
    }
  }

  lemma ContinuationIsHigh(b: Byte)
    requires IsContinuation(b)
    ensures b >= 0x80
  {
  }

  // ---- Whole texts ----

  predicate WellFormed(input: seq<Byte>)
    decreases |input|
  {
    input == [] || (Decode(input).Some? && WellFormed(input[Decode(input).value.byteCount..]))
  }

  ghost predicate AllScalars(text: seq<CodePoint>) {
    forall i :: 0 <= i < |text| ==> IsScalarValue(text[i])
  }

  ghost function EncodeAll(text: seq<CodePoint>): seq<Byte>
    requires AllScalars(text)
  {
    if text == [] then [] else Encode(text[0]) + EncodeAll(text[1..])
  }

  lemma {:induction false} EncodedIsWellFormed(text: seq<CodePoint>)
    requires AllScalars(text)
    ensures WellFormed(EncodeAll(text))
  {
    if text != [] {
      DecodeEncode(text[0], EncodeAll(text[1..]));
      EncodedIsWellFormed(text[1..]);
      assert EncodeAll(text)[|Encode(text[0])|..] == EncodeAll(text[1..]);
    }
  }

  lemma {:induction false} WellFormedIsEncoded(input: seq<Byte>) returns (text: seq<CodePoint>)
    requires WellFormed(input)
    ensures AllScalars(text) && EncodeAll(text) == input
    decreases |input|
  {
    if input == [] {
      text := [];
    } else {
      EncodeDecode(input);
      var s := Decode(input).value;
      var rest := WellFormedIsEncoded(input[s.byteCount..]);
      text := [s.value] + rest;
      assert text[1..] == rest;
      assert input == input[..s.byteCount] + input[s.byteCount..];
    }
  }

  /** Validation accepts exactly the concatenations of encodings. */
  lemma WellFormedExactly(input: seq<Byte>)
    ensures WellFormed(input) <==> exists text :: AllScalars(text) && EncodeAll(text) == input
  {
    if WellFormed(input) {
      var text := WellFormedIsEncoded(input);
    }
    if text :| AllScalars(text) && EncodeAll(text) == input {
      EncodedIsWellFormed(text);
    }
  }

  lemma FirstScalar(text: seq<CodePoint>)
    requires AllScalars(text) && text != []
    ensures var n := |Encode(text[0])|;
      && n <= |EncodeAll(text)| && Decode(EncodeAll(text)) == Some(DecodedScalar(text[0], n))
      && EncodeAll(text)[n..] == EncodeAll(text[1..])
  {
    DecodeEncode(text[0], EncodeAll(text[1..]));
  }

  /** A text has one reading. */
  lemma {:induction false} EncodingIsUnambiguous(left: seq<CodePoint>, right: seq<CodePoint>)
    requires AllScalars(left) && AllScalars(right) && EncodeAll(left) == EncodeAll(right)
    ensures left == right
    decreases |left|
  {
    if left != [] {
      FirstScalar(left);
    }
    if right != [] {
      FirstScalar(right);
    }
    if left != [] && right != [] {
      EncodingIsUnambiguous(left[1..], right[1..]);
      assert left == [left[0]] + left[1..] && right == [right[0]] + right[1..];
    }
  }
}
