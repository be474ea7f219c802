/**
 * The binary side of the .ibt telemetry file: variable types, little-endian
 * scalar and array extraction from a record buffer with bounds checks, the
 * record layout of the sample area, and the range/sample readers.
 * A file is modelled by its bytes in memory; opening it and reading the
 * headers from disk are not part of this model.
 */
module IbtDecode {
  import opened Types
  import IbtSession

  /** One byte of the file. */
  type Byte = b: int | 0 <= b < 256

  /** The variable types of the format, with their numeric tags 0..5. */
  datatype VarType = Char | Bool | Int | BitField | Float | Double

  datatype DecodeError =
    | UnknownVarType(code: int)
    | StartOutOfRange(start: nat, recordCount: nat)
    | IndexOutOfRange(index: nat, recordCount: nat)
    | ShortRead

  /** The tag the file uses for each type (the enum discriminants). */
  function TypeTag(t: VarType): int {
    match t
    case Char => 0
    case Bool => 1
    case Int => 2
    case BitField => 3
    case Float => 4
    case Double => 5
  }

  /** `VarType::from_i32`: the type with that tag, or an error for any other tag. */
  function VarTypeFromI32(code: int): (r: Result<VarType, DecodeError>)
    ensures r.Ok? <==> 0 <= code <= 5
    ensures r.Ok? ==> TypeTag(r.value) == code
    ensures r.Err? ==> r.error == UnknownVarType(code)
  {
    match code
    case 0 => Ok(Char)
    case 1 => Ok(Bool)
    case 2 => Ok(Int)
    case 3 => Ok(BitField)
    case 4 => Ok(Float)
    case 5 => Ok(Double)
    case _ => Err(UnknownVarType(code))
  }

  /** Decoding a type's own tag gives that type back. */
  lemma VarTypeTagRoundTrip(t: VarType)
    ensures VarTypeFromI32(TypeTag(t)) == Ok(t)
  {
  }

  /** `VarType::element_size`: bytes taken by one element of the type. */
  function ElementSize(t: VarType): (n: nat)
    ensures n == 1 <==> t == Char || t == Bool
    ensures n == 4 <==> t == Int || t == BitField || t == Float
    ensures n == 8 <==> t == Double
  {
    match t
    case Char => 1
    case Bool => 1
    case Int => 4
    case BitField => 4
    case Float => 4
    case Double => 8
  }

  /**
   * `read_null_terminated_string`, on bytes: everything before the first zero
   * byte, or the whole buffer when there is none.
   */
  function NullTerminated(buf: seq<Byte>): (r: seq<Byte>)
    ensures r <= buf
    ensures 0 !in r
    ensures |r| < |buf| ==> buf[|r|] == 0
  {
    if |buf| == 0 || buf[0] == 0 then [] else [buf[0]] + NullTerminated(buf[1..])
  }

  /** The text before the terminator is kept whatever follows it. */
  lemma {:induction false} NullTerminatedPadding(text: seq<Byte>, rest: seq<Byte>)
    requires 0 !in text
    ensures NullTerminated(text + [0] + rest) == text
  {
    if |text| > 0 {
      NullTerminatedPadding(text[1..], rest);
      assert (text + [0] + rest)[1..] == text[1..] + [0] + rest;
    }
  }

  // ----- little-endian integers ---------------------------------------------

  function Pow256(n: nat): (p: nat)
    ensures p >= 1
  {
    if n == 0 then 1 else 256 * Pow256(n - 1)
  }

  /** The unsigned value of bytes read least significant first. */
  function LeUint(bs: seq<Byte>): (v: nat)
    ensures v < Pow256(|bs|)
  {
    if |bs| == 0 then 0 else bs[0] + 256 * LeUint(bs[1..])
  }

  /** The `n` little-endian bytes of a value that fits in them. */
  function LeBytes(v: nat, n: nat): (bs: seq<Byte>)
    requires v < Pow256(n)
    ensures |bs| == n
  {
    if n == 0 then [] else [v % 256] + LeBytes(v / 256, n - 1)
  }

  lemma {:induction false} LeUintOfLeBytes(v: nat, n: nat)
    requires v < Pow256(n)
    ensures LeUint(LeBytes(v, n)) == v
  {
    if n > 0 {
      LeUintOfLeBytes(v / 256, n - 1);
      assert LeBytes(v, n)[1..] == LeBytes(v / 256, n - 1);
    }
  }

  lemma {:induction false} LeBytesOfLeUint(bs: seq<Byte>)
    ensures LeBytes(LeUint(bs), |bs|) == bs
  {
    if |bs| > 0 {
      LeBytesOfLeUint(bs[1..]);
      var v := LeUint(bs);
      assert v % 256 == bs[0] && v / 256 == LeUint(bs[1..]);
    }
  }

  const TwoTo31: int := 0x8000_0000
  const TwoTo32: nat := 0x1_0000_0000

  predicate IsI32(i: int) {
    -TwoTo31 <= i < TwoTo31
  }

  /** `i32::from_le_bytes` after the unsigned read: two's complement. */
  function AsI32(u: nat): (i: int)
    requires u < TwoTo32
    ensures IsI32(i)
  {
    if u < TwoTo31 then u else u - TwoTo32
  }

  /** The 32-bit two's complement pattern of an i32. */
  function I32Bits(i: int): (u: nat)
    requires IsI32(i)
    ensures u < TwoTo32
  {
    if i >= 0 then i else i + TwoTo32
  }

  lemma I32RoundTrip(i: int, u: nat)
    requires IsI32(i) && u < TwoTo32
    ensures AsI32(I32Bits(i)) == i
    ensures I32Bits(AsI32(u)) == u
  {
  }

  // ----- values ----------------------------------------------------------------

  /**
   * A decoded variable. Floating-point values keep their IEEE-754 bit pattern
   * (the unsigned little-endian value of their bytes).
   */
  datatype VarValue =
    | CharValue(c: Byte)
    | BoolValue(b: bool)
    | IntValue(i: int)
    | BitFieldValue(u: nat)
    | FloatValue(f32Bits: nat)
    | DoubleValue(f64Bits: nat)
    | CharArray(bytes: seq<Byte>)
    | IntArray(ints: seq<int>)
    | FloatArray(f32s: seq<nat>)
    | DoubleArray(f64s: seq<nat>)

  /** The type a scalar value has; arrays have none. */
  function ScalarType(v: VarValue): Option<VarType> {
    match v
    case CharValue(_) => Some(Char)
    case BoolValue(_) => Some(Bool)
    case IntValue(_) => Some(Int)
    case BitFieldValue(_) => Some(BitField)
    case FloatValue(_) => Some(Float)
    case DoubleValue(_) => Some(Double)
    case _ => None
  }

  /** A scalar whose payload fits its type's width. */
  predicate IsScalar(v: VarValue) {
    match v
    case CharValue(_) => true
    case BoolValue(_) => true
    case IntValue(i) => IsI32(i)
    case BitFieldValue(u) => u < TwoTo32
    case FloatValue(bits) => bits < TwoTo32
    case DoubleValue(bits) => bits < Pow256(8)
    case _ => false
  }

  /** The bytes that represent a scalar in a record (a Bool is written as 0 or 1). */
  function EncodeScalar(v: VarValue): (bs: seq<Byte>)
    requires IsScalar(v)
    ensures |bs| == ElementSize(ScalarType(v).value)
  {
    match v
    case CharValue(c) => [c]
    case BoolValue(b) => [if b then 1 else 0]
    case IntValue(i) => LeBytes(I32Bits(i), 4)
    case BitFieldValue(u) => LeBytes(u, 4)
    case FloatValue(bits) => LeBytes(bits, 4)
    case DoubleValue(bits) => LeBytes(bits, 8)
  }

  /** The scalar of type `t` held in exactly `ElementSize(t)` bytes. */
  function ScalarFrom(t: VarType, bs: seq<Byte>): (v: VarValue)
    requires |bs| == ElementSize(t)
    ensures ScalarType(v) == Some(t) && IsScalar(v)
  {
    assert Pow256(4) == TwoTo32;
    match t
    case Char => CharValue(bs[0])
    case Bool => BoolValue(bs[0] != 0)
    case Int => IntValue(AsI32(LeUint(bs)))
    case BitField => BitFieldValue(LeUint(bs))
    case Float => FloatValue(LeUint(bs))
    case Double => DoubleValue(LeUint(bs))
  }

  /**
   * `read_scalar_value`: the value of type `t` starting at `offset`, or None when
   * its bytes do not all lie inside the buffer.
   */
  function ReadScalar(buf: seq<Byte>, offset: nat, t: VarType): (r: Option<VarValue>)
    ensures r.None? <==> offset + ElementSize(t) > |buf|
    ensures r.Some? ==> ScalarType(r.value) == Some(t) && IsScalar(r.value)
  {
    if offset + ElementSize(t) <= |buf| then
      Some(ScalarFrom(t, buf[offset..offset + ElementSize(t)]))
    else None
  }

  /** A Bool variable is true exactly when its byte is not zero. */
  lemma ReadBool(buf: seq<Byte>, offset: nat)
    requires offset < |buf|
    ensures ReadScalar(buf, offset, Bool) == Some(BoolValue(buf[offset] != 0))
  {
  }

  /** A scalar written at `offset` (little-endian for the wide types) reads back unchanged. */
  lemma ReadScalarRoundTrip(pre: seq<Byte>, v: VarValue, post: seq<Byte>)
    requires IsScalar(v)
    ensures ReadScalar(pre + EncodeScalar(v) + post, |pre|, ScalarType(v).value) == Some(v)
  {
    var t := ScalarType(v).value;
    var enc := EncodeScalar(v);
    var buf := pre + enc + post;
    assert buf[|pre|..|pre| + ElementSize(t)] == enc;
    assert Pow256(4) == TwoTo32;
    match v
    case CharValue(c) =>
    case BoolValue(b) =>
    case IntValue(i) =>
      LeUintOfLeBytes(I32Bits(i), 4);
      I32RoundTrip(i, 0);
    case BitFieldValue(u) =>
      LeUintOfLeBytes(u, 4);
    case FloatValue(bits) =>
      LeUintOfLeBytes(bits, 4);
    case DoubleValue(bits) =>
      LeUintOfLeBytes(bits, 8);
  }

  // ----- arrays ------------------------------------------------------------------

  /**
   * The unsigned values of the consecutive `size`-byte elements starting at
   * `offset`, for as many of the first `count` elements as lie fully inside `buf`.
   */
  function Words(buf: seq<Byte>, offset: nat, size: nat, count: nat): (ws: seq<nat>)
    requires size > 0
    ensures |ws| <= count
    ensures forall j :: 0 <= j < |ws| ==> ws[j] < Pow256(size)
    decreases count
  {
    if count == 0 || offset + size > |buf| then []
    else [LeUint(buf[offset..offset + size])] + Words(buf, offset + size, size, count - 1)
  }

  /**
   * `a * b`, written out as `b` added `a` times, so that the offset proofs below
   * stay linear; `MulIs` proves it is the product.
   */
  function Mul(a: nat, b: nat): nat
    decreases a
  {
    if a == 0 then 0 else Mul(a - 1, b) + b
  }

  lemma {:induction false} MulIs(a: nat, b: nat)
    ensures Mul(a, b) == a * b
    decreases a
  {
    if a > 0 {
      MulIs(a - 1, b);
    }
  }

  lemma {:induction false} MulAdd(a: nat, c: nat, b: nat)
    ensures Mul(a + c, b) == Mul(a, b) + Mul(c, b)
    decreases a
  {
    if a > 0 {
      MulAdd(a - 1, c, b);
    }
  }

  lemma {:induction false} MulMonotone(a: nat, c: nat, b: nat)
    requires a <= c
    ensures Mul(a, b) <= Mul(c, b)
    decreases c
  {
    if a < c {
      MulMonotone(a, c - 1, b);
    }
  }

  /** The bytes of element `j` of an array of `size`-byte elements at `offset`. */
  function Element(buf: seq<Byte>, offset: nat, size: nat, j: nat): seq<Byte>
    requires offset + Mul(j + 1, size) <= |buf|
  {
    buf[offset + Mul(j, size)..offset + Mul(j + 1, size)]
  }

  /** Element `j` lies inside the buffer and `w` is the little-endian value of its bytes. */
  predicate ElementIs(buf: seq<Byte>, offset: nat, size: nat, w: nat, j: nat) {
    offset + Mul(j + 1, size) <= |buf| && w == LeUint(Element(buf, offset, size, j))
  }

  /** Each value is the little-endian value of its own element's bytes, all inside the buffer. */
  predicate ElementsAre(buf: seq<Byte>, offset: nat, size: nat, ws: seq<nat>) {
    forall j :: 0 <= j < |ws| ==> ElementIs(buf, offset, size, ws[j], j)
  }

  /** Element `j` of `Words` lies fully inside the buffer and is the value of its own bytes. */
  lemma {:induction false} WordAt(buf: seq<Byte>, offset: nat, size: nat, count: nat, j: nat)
    requires size > 0 && j < |Words(buf, offset, size, count)|
    ensures offset + Mul(j + 1, size) <= |buf|
    ensures Words(buf, offset, size, count)[j] == LeUint(Element(buf, offset, size, j))
    decreases j
  {
    if j > 0 {
      WordAt(buf, offset + size, size, count - 1, j - 1);
      assert Element(buf, offset + size, size, j - 1) == Element(buf, offset, size, j);
    }
  }

  /** `Words` stops short of `count` only at the first element that does not fit. */
  lemma {:induction false} WordsMaximal(buf: seq<Byte>, offset: nat, size: nat, count: nat)
    requires size > 0
    ensures var n := |Words(buf, offset, size, count)|;
      n < count ==> offset + Mul(n + 1, size) > |buf|
    decreases count
  {
    if count > 0 && offset + size <= |buf| {
      WordsMaximal(buf, offset + size, size, count - 1);
      var n := |Words(buf, offset + size, size, count - 1)|;
      assert Mul(n + 2, size) == Mul(n + 1, size) + size;
    }
  }

  /**
   * What `Words` holds: only elements that lie fully inside the buffer, each the
   * value of its own bytes, in order, and as many as fit (at most `count`).
   */
  lemma WordsSpec(buf: seq<Byte>, offset: nat, size: nat, count: nat)
    requires size > 0
    ensures ElementsAre(buf, offset, size, Words(buf, offset, size, count))
    ensures var n := |Words(buf, offset, size, count)|;
      n < count ==> offset + Mul(n + 1, size) > |buf|
  {
    var ws := Words(buf, offset, size, count);
    forall j | 0 <= j < |ws|
      ensures ElementIs(buf, offset, size, ws[j], j)
    {
      WordAt(buf, offset, size, count, j);
    }
    WordsMaximal(buf, offset, size, count);
  }

  /** When the whole array lies inside the buffer, every element is read. */
  lemma WordsAll(buf: seq<Byte>, offset: nat, size: nat, count: nat)
    requires size > 0 && offset + count * size <= |buf|
    ensures |Words(buf, offset, size, count)| == count
  {
    var ws := Words(buf, offset, size, count);
    WordsSpec(buf, offset, size, count);
    MulIs(count, size);
    if |ws| < count {
      MulMonotone(|ws| + 1, count, size);
    }
  }

  /** Growing the element count by one adds the next element exactly when it fits. */
  lemma {:induction false} WordsSnoc(buf: seq<Byte>, offset: nat, size: nat, i: nat)
    requires size > 0
    ensures Words(buf, offset, size, i + 1) ==
      Words(buf, offset, size, i) + (if offset + Mul(i, size) + size <= |buf|
        then [LeUint(buf[offset + Mul(i, size)..offset + Mul(i, size) + size])] else [])
    decreases i
  {
    if offset + size <= |buf| && i > 0 {
      WordsSnoc(buf, offset + size, size, i - 1);
      assert offset + size + Mul(i - 1, size) == offset + Mul(i, size);
    }
  }

  /** Reads the fitting words of an array one element at a time, as the source's loop does. */
  method ReadWords(buf: seq<Byte>, offset: nat, size: nat, count: nat) returns (ws: seq<nat>)
    requires size > 0
    ensures ws == Words(buf, offset, size, count)
  {
    ws := [];
    for i := 0 to count
      invariant ws == Words(buf, offset, size, i)
    {
      WordsSnoc(buf, offset, size, i);
      var off := offset + Mul(i, size);
      if off + size <= |buf| {
        ws := ws + [LeUint(buf[off..off + size])];
      }
    }
  }

  function AsI32s(ws: seq<nat>): (r: seq<int>)
    requires forall j :: 0 <= j < |ws| ==> ws[j] < TwoTo32
    ensures |r| == |ws|
  {
    seq(|ws|, j requires 0 <= j < |ws| => AsI32(ws[j]))
  }

  /**
   * `read_array_value`, as a specification. Char and Bool arrays are all or
   * nothing and come back as byte arrays; the wide types always succeed and keep
   * the elements that fit (Int and BitField alike are decoded as i32).
   */
  function ArrayValue(buf: seq<Byte>, offset: nat, t: VarType, count: nat): (r: Option<VarValue>)
    ensures (t == Char || t == Bool) ==> (r.None? <==> offset + count > |buf|)
    ensures !(t == Char || t == Bool) ==> r.Some?
  {
    assert Pow256(4) == TwoTo32;
    match t
    case Char | Bool =>
      if offset + count <= |buf| then Some(CharArray(buf[offset..offset + count])) else None
    case Int | BitField => Some(IntArray(AsI32s(Words(buf, offset, 4, count))))
    case Float => Some(FloatArray(Words(buf, offset, 4, count)))
    case Double => Some(DoubleArray(Words(buf, offset, 8, count)))
  }

  /** `read_array_value`. */
  method ReadArray(buf: seq<Byte>, offset: nat, t: VarType, count: nat) returns (r: Option<VarValue>)
    ensures r == ArrayValue(buf, offset, t, count)
  {
    assert Pow256(4) == TwoTo32;
    match t
    case Char | Bool =>
      if offset + count <= |buf| {
        r := Some(CharArray(buf[offset..offset + count]));
      } else {
        r := None;
      }
    case Int | BitField =>
      var ws := ReadWords(buf, offset, 4, count);
      r := Some(IntArray(AsI32s(ws)));
    case Float =>
      var ws := ReadWords(buf, offset, 4, count);
      r := Some(FloatArray(ws));
    case Double =>
      var ws := ReadWords(buf, offset, 8, count);
      r := Some(DoubleArray(ws));
  }

  /** The elements of a wide-typed array: in-bounds only, in order, at most `count`, maximal. */
  lemma ArrayElements(buf: seq<Byte>, offset: nat, t: VarType, count: nat)
    requires t == Float || t == Double
    ensures var r := ArrayValue(buf, offset, t, count);
      var size := ElementSize(t);
      var ws := if t == Float then r.value.f32s else r.value.f64s;
      && |ws| <= count
      && ElementsAre(buf, offset, size, ws)
      && (|ws| < count ==> offset + Mul(|ws| + 1, size) > |buf|)
  {
    WordsSpec(buf, offset, ElementSize(t), count);
  }

  /** Each value is the i32 held in its own 4-byte element, all inside the buffer. */
  predicate IntElementsAre(buf: seq<Byte>, offset: nat, ints: seq<int>) {
    forall j :: 0 <= j < |ints| ==> IntElementIs(buf, offset, ints[j], j)
  }

  /** Element `j` lies inside the buffer and `v` is the i32 its four bytes hold. */
  predicate IntElementIs(buf: seq<Byte>, offset: nat, v: int, j: nat) {
    && offset + Mul(j + 1, 4) <= |buf|
    && LeUint(Element(buf, offset, 4, j)) < TwoTo32
    && v == AsI32(LeUint(Element(buf, offset, 4, j)))
  }

  /** The elements of an Int or BitField array, decoded as i32. */
  lemma IntArrayElements(buf: seq<Byte>, offset: nat, t: VarType, count: nat)
    requires t == Int || t == BitField
    ensures var ints := ArrayValue(buf, offset, t, count).value.ints;
      && |ints| <= count
      && IntElementsAre(buf, offset, ints)
      && (|ints| < count ==> offset + Mul(|ints| + 1, 4) > |buf|)
  {
    var ws := Words(buf, offset, 4, count);
    WordsSpec(buf, offset, 4, count);
    assert Pow256(4) == TwoTo32;
    var ints := ArrayValue(buf, offset, t, count).value.ints;
    assert ints == AsI32s(ws);
    forall j | 0 <= j < |ints|
      ensures IntElementIs(buf, offset, ints[j], j)
    {
      assert ElementIs(buf, offset, 4, ws[j], j);
    }
  }

  // ----- records -------------------------------------------------------------

  /**
   * A variable header: its type, byte offset in a record, element count and
   * name (description and unit are not used by decoding).
   */
  datatype VarHeader = VarHeader(varType: VarType, offset: nat, count: nat, name: string)

  /** A decoded record: variable name to value. */
  type Sample = map<string, VarValue>

  /** The variable's bytes end inside a record of `bufLen` bytes. */
  predicate Fits(h: VarHeader, bufLen: nat) {
    h.offset + h.count * ElementSize(h.varType) <= bufLen
  }

  /** The value one header decodes to in one record, if it is decoded at all. */
  function VarValueOf(h: VarHeader, buf: seq<Byte>): (r: Option<VarValue>)
    ensures r.Some? <==> Fits(h, |buf|)
  {
    if !Fits(h, |buf|) then None
    else if h.count == 1 then ReadScalar(buf, h.offset, h.varType)
    else ArrayValue(buf, h.offset, h.varType, h.count)
  }

  /** The sample the headers decode to, later headers overwriting earlier ones of the same name. */
  function DecodeVars(hs: seq<VarHeader>, buf: seq<Byte>): Sample {
    if |hs| == 0 then map[]
    else
      var m := DecodeVars(hs[..|hs| - 1], buf);
      var h := hs[|hs| - 1];
      match VarValueOf(h, buf)
      case Some(v) => m[h.name := v]
      case None => m
  }

  /** A name is in the sample exactly when some header of that name fits the record. */
  lemma {:induction false} DecodeVarsKeys(hs: seq<VarHeader>, buf: seq<Byte>, k: string)
    ensures k in DecodeVars(hs, buf) <==>
      exists j :: 0 <= j < |hs| && hs[j].name == k && Fits(hs[j], |buf|)
  {
    if |hs| > 0 {
      var init := hs[..|hs| - 1];
      DecodeVarsKeys(init, buf, k);
      if k in DecodeVars(init, buf) {
        var j :| 0 <= j < |init| && init[j].name == k && Fits(init[j], |buf|);
        assert hs[j] == init[j];
      }
      if exists j :: 0 <= j < |hs| && hs[j].name == k && Fits(hs[j], |buf|) {
        var j :| 0 <= j < |hs| && hs[j].name == k && Fits(hs[j], |buf|);
        if j < |hs| - 1 {
          assert init[j] == hs[j];
        }
      }
    }
  }

  /** The value under a name is the one decoded by the last fitting header of that name. */
  lemma {:induction false} DecodeVarsValue(hs: seq<VarHeader>, buf: seq<Byte>, j: nat)
    requires j < |hs| && Fits(hs[j], |buf|)
    requires forall i :: j < i < |hs| ==> hs[i].name != hs[j].name || !Fits(hs[i], |buf|)
    ensures hs[j].name in DecodeVars(hs, buf)
    ensures DecodeVars(hs, buf)[hs[j].name] == VarValueOf(hs[j], buf).value
  {
    if j < |hs| - 1 {
      DecodeVarsValue(hs[..|hs| - 1], buf, j);
    }
  }

  /** The per-record loop of `read_samples_range` and `read_sample`. */
  method DecodeSample(hs: seq<VarHeader>, buf: seq<Byte>) returns (sample: Sample)
    ensures sample == DecodeVars(hs, buf)
  {
    sample := map[];
    for i := 0 to |hs|
      invariant sample == DecodeVars(hs[..i], buf)
    {
      assert hs[..i + 1][..i] == hs[..i];
      var h := hs[i];
      var end := h.offset + h.count * ElementSize(h.varType);
      if end > |buf| {
        continue;
      }
      var value: Option<VarValue>;
      if h.count == 1 {
        value := ReadScalar(buf, h.offset, h.varType);
      } else {
        value := ReadArray(buf, h.offset, h.varType, h.count);
      }
      if value.Some? {
        sample := sample[h.name := value.value];
      }
    }
    assert hs[..|hs|] == hs;
  }

  // ----- files ---------------------------------------------------------------

  /**
   * An opened .ibt file: its bytes, where the sample area starts, the record
   * length, the number of records, the variable headers and the session info.
   */
  datatype IbtFile = IbtFile(
    data: seq<Byte>,
    sampleDataOffset: nat,
    bufLen: nat,
    recordCount: nat,
    tickRate: nat,
    varHeaders: seq<VarHeader>,
    sessionInfo: IbtSession.SessionInfo)

  /** Byte position of record `index`: record i occupies [i*bufLen, (i+1)*bufLen) of the sample area. */
  function RecordStart(f: IbtFile, index: nat): nat {
    f.sampleDataOffset + Mul(index, f.bufLen)
  }

  /** `count` records from `start` can be read: an empty read always succeeds. */
  predicate Readable(f: IbtFile, start: nat, count: nat) {
    Mul(count, f.bufLen) == 0 || RecordStart(f, start) + Mul(count, f.bufLen) <= |f.data|
  }

  /** The bytes of record `index`. */
  function Record(f: IbtFile, index: nat): (bs: seq<Byte>)
    requires Readable(f, index, 1)
    ensures |bs| == f.bufLen
  {
    if f.bufLen == 0 then [] else f.data[RecordStart(f, index)..RecordStart(f, index) + f.bufLen]
  }

  /** Every record of a readable range is readable on its own. */
  lemma ReadableRecord(f: IbtFile, start: nat, count: nat, i: nat)
    requires Readable(f, start, count) && i < count
    ensures Readable(f, start + i, 1)
  {
    if f.bufLen > 0 {
      MulAdd(start, i, f.bufLen);
      MulMonotone(i + 1, count, f.bufLen);
    }
  }

  /** A prefix of a readable range is readable. */
  lemma ReadablePrefix(f: IbtFile, start: nat, count: nat, i: nat)
    requires Readable(f, start, count) && i <= count
    ensures Readable(f, start, i)
  {
    MulMonotone(i, count, f.bufLen);
  }

  /** The sample decoded from record `index`. */
  function DecodedRecord(f: IbtFile, index: nat): Sample
    requires Readable(f, index, 1)
  {
    DecodeVars(f.varHeaders, Record(f, index))
  }

  /** The samples of the `count` records from `start`, in order. */
  function RangeSamples(f: IbtFile, start: nat, count: nat): (ss: seq<Sample>)
    requires Readable(f, start, count)
    ensures |ss| == count
    ensures forall idx :: start <= idx < start + count ==> Readable(f, idx, 1)
    ensures forall i :: 0 <= i < count ==> ss[i] == DecodedRecord(f, start + i)
  {
    ReadableRecords(f, start, count);
    seq(count, i requires 0 <= i < count => DecodedRecord(f, start + i))
  }

  lemma ReadableRecords(f: IbtFile, start: nat, count: nat)
    requires Readable(f, start, count)
    ensures forall idx :: start <= idx < start + count ==> Readable(f, idx, 1)
  {
    forall idx | start <= idx < start + count
      ensures Readable(f, idx, 1)
    {
      ReadableRecord(f, start, count, idx - start);
    }
  }

  lemma RangeSamplesSnoc(f: IbtFile, start: nat, count: nat, i: nat)
    requires Readable(f, start, count) && i < count
    ensures Readable(f, start, i) && Readable(f, start, i + 1) && Readable(f, start + i, 1)
    ensures RangeSamples(f, start, i + 1) == RangeSamples(f, start, i) + [DecodedRecord(f, start + i)]
  {
    ReadablePrefix(f, start, count, i);
    ReadablePrefix(f, start, count, i + 1);
    ReadableRecord(f, start, count, i);
    var longer := RangeSamples(f, start, i + 1);
    var shorter := RangeSamples(f, start, i) + [DecodedRecord(f, start + i)];
    forall k | 0 <= k < i + 1
      ensures longer[k] == shorter[k]
    {
    }
  }

  /** In the bulk read of `count` records from `start`, slice `i` is record `start + i`. */
  lemma BulkSlice(f: IbtFile, start: nat, count: nat, bulk: seq<Byte>, i: nat)
    requires f.bufLen > 0 && i < count
    requires RecordStart(f, start) + Mul(count, f.bufLen) <= |f.data|
    requires bulk == f.data[RecordStart(f, start)..RecordStart(f, start) + Mul(count, f.bufLen)]
    ensures Mul(i + 1, f.bufLen) <= |bulk|
    ensures Readable(f, start + i, 1)
    ensures bulk[Mul(i, f.bufLen)..Mul(i + 1, f.bufLen)] == Record(f, start + i)
  {
    ReadableRecord(f, start, count, i);
    MulMonotone(i + 1, count, f.bufLen);
    MulAdd(start, i, f.bufLen);
  }

  /** `read_samples_range`, as a specification. */
  function SamplesRange(f: IbtFile, start: nat, count: nat): (r: Result<seq<Sample>, DecodeError>)
    ensures r.Err? && r.error.StartOutOfRange? <==> start >= f.recordCount
    ensures r.Err? ==> r.error == StartOutOfRange(start, f.recordCount) || r.error == ShortRead
    ensures r.Ok? ==> |r.value| == Min(count, f.recordCount - start)
  {
    if start >= f.recordCount then Err(StartOutOfRange(start, f.recordCount))
    else
      var n := Min(count, f.recordCount - start);
      if n == 0 then Ok([])
      else if !Readable(f, start, n) then Err(ShortRead)
      else Ok(RangeSamples(f, start, n))
  }

  /**
   * Past the range check, the read succeeds exactly when the clamped range lies
   * inside the file, and sample `i` is the decode of record `start + i`.
   */
  lemma SamplesRangeContents(f: IbtFile, start: nat, count: nat)
    requires start < f.recordCount
    ensures var n := Min(count, f.recordCount - start);
      && (SamplesRange(f, start, count).Ok? <==> Readable(f, start, n))
      && (SamplesRange(f, start, count).Ok? ==>
            && (forall idx :: start <= idx < start + n ==> Readable(f, idx, 1))
            && (forall i :: 0 <= i < n ==> SamplesRange(f, start, count).value[i] == DecodedRecord(f, start + i)))
  {
    var n := Min(count, f.recordCount - start);
    if Readable(f, start, n) {
      ReadableRecords(f, start, n);
    }
  }

  /**
   * `read_samples_range`: after the range checks, one bulk read of the records
   * and a decode of each `bufLen`-byte slice.
   */
  method ReadSamplesRange(f: IbtFile, start: nat, count: nat) returns (r: Result<seq<Sample>, DecodeError>)
    ensures r == SamplesRange(f, start, count)
  {
    if start >= f.recordCount {
      return Err(StartOutOfRange(start, f.recordCount));
    }
    var n := Min(count, f.recordCount - start);
    if n == 0 {
      return Ok([]);
    }
    var bufLen := f.bufLen;
    var offset := RecordStart(f, start);
    var totalBytes := Mul(n, bufLen);
    if totalBytes > 0 && offset + totalBytes > |f.data| {
      return Err(ShortRead);
    }
    var bulk := if totalBytes == 0 then [] else f.data[offset..offset + totalBytes];
    var results: seq<Sample> := [];
    for i := 0 to n
      invariant Readable(f, start, i)
      invariant results == RangeSamples(f, start, i)
    {
      RangeSamplesSnoc(f, start, n, i);
      var frameBuf: seq<Byte>;
      if bufLen == 0 {
        frameBuf := [];
      } else {
        BulkSlice(f, start, n, bulk, i);
        frameBuf := bulk[Mul(i, bufLen)..Mul(i + 1, bufLen)];
      }
      var sample := DecodeSample(f.varHeaders, frameBuf);
      results := results + [sample];
    }
    return Ok(results);
  }

  /** `read_sample`, as a specification. */
  function SampleAt(f: IbtFile, index: nat): (r: Result<Sample, DecodeError>)
    ensures r.Err? && r.error.IndexOutOfRange? <==> index >= f.recordCount
  {
    if index >= f.recordCount then Err(IndexOutOfRange(index, f.recordCount))
    else if !Readable(f, index, 1) then Err(ShortRead)
    else Ok(DecodeVars(f.varHeaders, Record(f, index)))
  }

  /** `read_sample`: a single-record read and decode. */
  method ReadSample(f: IbtFile, index: nat) returns (r: Result<Sample, DecodeError>)
    ensures r == SampleAt(f, index)
  {
    if index >= f.recordCount {
      return Err(IndexOutOfRange(index, f.recordCount));
    }
    var offset := f.sampleDataOffset + Mul(index, f.bufLen);
    if f.bufLen > 0 && offset + f.bufLen > |f.data| {
      return Err(ShortRead);
    }
    var sampleBuf := if f.bufLen == 0 then [] else f.data[offset..offset + f.bufLen];
    var sample := DecodeSample(f.varHeaders, sampleBuf);
    return Ok(sample);
  }

  /** Reading one record alone and reading a range of one agree. */
  lemma SampleAtMatchesRange(f: IbtFile, index: nat)
    requires index < f.recordCount
    ensures SampleAt(f, index).Ok? <==> SamplesRange(f, index, 1).Ok?
    ensures SampleAt(f, index).Ok? ==> SamplesRange(f, index, 1).value == [SampleAt(f, index).value]
  {
  }
}
