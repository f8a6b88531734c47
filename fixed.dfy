/**
 * The fixed-point position and cell codec of the `slowchop` crate
 * (slowchop/src/position.rs).
 *
 * `Fixed64` wraps an I44F20 number: a signed 64-bit integer read with 20
 * fractional bits. It serialises in the Borsh format as the 8 little-endian
 * bytes of its two's-complement bit pattern; `Position` and `Cell` serialise
 * their fields x, y, z in that order.
 */
module FixedCodec {
  import opened Wrappers

  const TWO_POW_63: int := 0x8000_0000_0000_0000
  const TWO_POW_64: int := 0x1_0000_0000_0000_0000

  /** The raw value of 1.0 in I44F20 (2^20). */
  const ONE: int := 0x10_0000
  /** The raw value of 0.5 in I44F20. */
  const HALF: int := 0x8_0000

  /** `Fixed64::LEN`: the bytes in one serialised `Fixed64`, and in one `i64`. */
  const LEN: nat := 8

  type Byte = b: int | 0 <= b < 256
  type I64 = n: int | -0x8000_0000_0000_0000 <= n < 0x8000_0000_0000_0000
  type U64 = n: int | 0 <= n < 0x1_0000_0000_0000_0000

  /** An I44F20 fixed-point number, held as its raw 64-bit integer. */
  datatype Fixed64 = Fixed64(bits: I64)

  /** The number a `Fixed64` stands for: its raw bits over 2^20. */
  function ToReal(f: Fixed64): real {
    f.bits as real / ONE as real
  }

  /** A global position: three fixed-point coordinates. */
  datatype Position = Position(x: Fixed64, y: Fixed64, z: Fixed64)

  /** A snapped cell: three `i64` coordinates. */
  datatype Cell = Cell(x: I64, y: I64, z: I64)

  /** The I/O error kinds the decoders report. */
  datatype ErrorKind = InvalidInput | InvalidData

  // ---------------------------------------------------------------------------
  // Fixed-point arithmetic and snapping to cells

  /** The largest integer part an I44F20 can hold, plus one (2^43). */
  const INT_LIMIT: int := 0x800_0000_0000

  /**
   * `From<u64> for Fixed64` (`I44F20::from_num`): exact when the integer
   * part is below 2^43; otherwise the conversion overflows, which panics in a
   * debug build and is reported here as `None`.
   */
  function FromU64(n: U64): (r: Option<Fixed64>)
    ensures r.Some? <==> n < INT_LIMIT
    ensures r.Some? ==> r.value.bits == n * ONE && ToReal(r.value) == n as real
  {
    if n < INT_LIMIT then Some(Fixed64(n * ONE)) else None
  }

  /**
   * `Fixed64 + Fixed64` (derived `Add`): the exact sum of the two values when
   * it is representable; an overflow (a debug-build panic) is `None`.
   */
  function AddFixed(a: Fixed64, b: Fixed64): (r: Option<Fixed64>)
    ensures r.Some? <==> -TWO_POW_63 <= a.bits + b.bits < TWO_POW_63
    ensures r.Some? ==> ToReal(r.value) == ToReal(a) + ToReal(b)
  {
    var sum := a.bits + b.bits;
    if -TWO_POW_63 <= sum < TWO_POW_63 then Some(Fixed64(sum)) else None
  }

  /** `Position::new_u64`: all three coordinates converted, or `None` if one overflows. */
  function NewU64(x: U64, y: U64, z: U64): (r: Option<Position>)
    ensures r.Some? <==> x < INT_LIMIT && y < INT_LIMIT && z < INT_LIMIT
    ensures r.Some? ==> ToReal(r.value.x) == x as real && ToReal(r.value.y) == y as real &&
                        ToReal(r.value.z) == z as real
  {
    if x < INT_LIMIT && y < INT_LIMIT && z < INT_LIMIT
    then Some(Position(FromU64(x).value, FromU64(y).value, FromU64(z).value))
    else None
  }

  /** 1 + 0.5 == 1.5 exactly, as the crate's `usage` test checks. */
  lemma OnePlusHalf()
    ensures FromU64(1).Some? && AddFixed(FromU64(1).value, Fixed64(HALF)) == Some(Fixed64(3 * HALF))
    ensures ToReal(Fixed64(HALF)) == 0.5 && ToReal(Fixed64(3 * HALF)) == 1.5
  {
  }

  /** `floor().lossy_into()`: the largest integer not above the value. */
  function FloorInt(f: Fixed64): (r: int)
    ensures r * ONE <= f.bits < r * ONE + ONE
    ensures r as real <= ToReal(f) < r as real + 1.0
    ensures -INT_LIMIT <= r < INT_LIMIT
  {
    f.bits / ONE
  }

  /** `to_cell_floor`: each coordinate floored. */
  function ToCellFloor(p: Position): (c: Cell)
    ensures c.x as real <= ToReal(p.x) < c.x as real + 1.0
    ensures c.y as real <= ToReal(p.y) < c.y as real + 1.0
    ensures c.z as real <= ToReal(p.z) < c.z as real + 1.0
  {
    Cell(FloorInt(p.x), FloorInt(p.y), FloorInt(p.z))
  }

  /** Flooring (1.9, 2.2, 3.3), each as its nearest I44F20 value, gives the cell (1, 2, 3). */
  lemma FloorExample()
    ensures ToCellFloor(Position(Fixed64(1992294), Fixed64(2306867), Fixed64(3460301))) == Cell(1, 2, 3)
  {
  }

  /** `round()`: the nearest integer, ties rounded away from zero. */
  function RoundInt(f: Fixed64): (r: int)
    ensures -HALF <= f.bits - r * ONE <= HALF
    ensures f.bits - r * ONE == HALF ==> f.bits < 0
    ensures f.bits - r * ONE == -HALF ==> f.bits > 0
    ensures -INT_LIMIT <= r <= INT_LIMIT
  {
    var b: int := f.bits;
    if b >= 0 then (b + HALF) / ONE else -((-b + HALF) / ONE)
  }

  /**
   * `to_cell_round`: each coordinate rounded to its nearest integer. A
   * coordinate within a half of the top of the range rounds to 2^43, which
   * I44F20 cannot hold (a debug-build panic): `None`.
   */
  function ToCellRound(p: Position): (r: Option<Cell>)
    ensures r.Some? <==> RoundInt(p.x) < INT_LIMIT && RoundInt(p.y) < INT_LIMIT && RoundInt(p.z) < INT_LIMIT
    ensures r.Some? ==> -HALF <= p.x.bits - r.value.x * ONE <= HALF
    ensures r.Some? ==> -HALF <= p.y.bits - r.value.y * ONE <= HALF
    ensures r.Some? ==> -HALF <= p.z.bits - r.value.z * ONE <= HALF
    ensures r.Some? ==> r.value == Cell(RoundInt(p.x), RoundInt(p.y), RoundInt(p.z))
  {
    var x, y, z := RoundInt(p.x), RoundInt(p.y), RoundInt(p.z);
    if x < INT_LIMIT && y < INT_LIMIT && z < INT_LIMIT then Some(Cell(x, y, z)) else None
  }

  // ---------------------------------------------------------------------------
  // Little-endian two's-complement encoding of 64-bit integers

  function Pow256(n: nat): (r: nat)
    ensures r > 0
  {
    if n == 0 then 1 else 256 * Pow256(n - 1)
  }

  lemma Pow256Of8()
    ensures Pow256(LEN) == TWO_POW_64
  {
    assert Pow256(2) == 0x1_0000;
    assert Pow256(4) == 0x1_0000_0000;
    assert Pow256(6) == 0x1_0000_0000_0000;
  }

  /** The lowest `n` bytes of `u`, least significant first. */
  function LeBytes(u: nat, n: nat): (r: seq<Byte>)
    ensures |r| == n
  {
    if n == 0 then [] else [u % 256] + LeBytes(u / 256, n - 1)
  }

  /** The number whose little-endian bytes are `bs`. */
  function FromLe(bs: seq<Byte>): (r: nat)
    ensures r < Pow256(|bs|)
  {
    if bs == [] then 0 else bs[0] + 256 * FromLe(bs[1..])
  }

  /** Encoding a number that fits in `n` bytes and decoding it gives the number back. */
  lemma {:induction false} FromLeOfLeBytes(u: nat, n: nat)
    requires u < Pow256(n)
    ensures FromLe(LeBytes(u, n)) == u
  {
    if n > 0 {
      FromLeOfLeBytes(u / 256, n - 1);
      assert LeBytes(u, n)[1..] == LeBytes(u / 256, n - 1);
    }
  }

  /** Decoding any bytes and encoding the result at the same width gives the bytes back. */
  lemma {:induction false} LeBytesOfFromLe(bs: seq<Byte>)
    ensures LeBytes(FromLe(bs), |bs|) == bs
  {
    if bs != [] {
      LeBytesOfFromLe(bs[1..]);
      var u := FromLe(bs);
      assert u % 256 == bs[0];
      assert u / 256 == FromLe(bs[1..]);
    }
  }

  /** The two's-complement bit pattern of an `i64`, read unsigned. */
  function ToBits(i: I64): (u: U64)
    ensures u < TWO_POW_63 <==> i >= 0
    ensures u % TWO_POW_64 == i % TWO_POW_64
  {
    if i < 0 then i + TWO_POW_64 else i
  }

  /** The `i64` with a given bit pattern. */
  function FromBits(u: U64): (i: I64)
    ensures i >= 0 <==> u < TWO_POW_63
    ensures i % TWO_POW_64 == u % TWO_POW_64
  {
    if u < TWO_POW_63 then u else u - TWO_POW_64
  }

  lemma BitsRoundTrip(i: I64, u: U64)
    ensures FromBits(ToBits(i)) == i
    ensures ToBits(FromBits(u)) == u
  {
  }

  /** `i64::to_le_bytes`. */
  function I64ToLe(i: I64): (r: seq<Byte>)
    ensures |r| == LEN
  {
    LeBytes(ToBits(i), LEN)
  }

  /** `i64::from_le_bytes`. */
  function I64FromLe(bs: seq<Byte>): I64
    requires |bs| == LEN
  {
    Pow256Of8();
    FromBits(FromLe(bs))
  }

  /** Every `i64` survives `to_le_bytes` then `from_le_bytes`, and every 8 bytes the reverse. */
  lemma I64LeRoundTrip(i: I64, bs: seq<Byte>)
    requires |bs| == LEN
    ensures I64FromLe(I64ToLe(i)) == i
    ensures I64ToLe(I64FromLe(bs)) == bs
  {
    Pow256Of8();
    FromLeOfLeBytes(ToBits(i), LEN);
    LeBytesOfFromLe(bs);
    BitsRoundTrip(i, FromLe(bs));
  }

  // ---------------------------------------------------------------------------
  // The Borsh format as functions: encoders, and decoders that return the value
  // and the unread rest of the input

  function EncodeFixed(f: Fixed64): seq<Byte> {
    I64ToLe(f.bits)
  }

  function EncodePosition(p: Position): seq<Byte> {
    EncodeFixed(p.x) + EncodeFixed(p.y) + EncodeFixed(p.z)
  }

  function EncodeCell(c: Cell): seq<Byte> {
    I64ToLe(c.x) + I64ToLe(c.y) + I64ToLe(c.z)
  }

  /** Borsh's `i64` decoder: fewer than 8 bytes is an error, else 8 bytes are consumed. */
  function DecodeI64(buf: seq<Byte>): Result<(I64, seq<Byte>), ErrorKind> {
    if |buf| < LEN then Failure(InvalidInput) else Success((I64FromLe(buf[..LEN]), buf[LEN..]))
  }

  /** `Fixed64::deserialize`: fewer than 8 bytes is an error, else 8 bytes are consumed. */
  function DecodeFixed(buf: seq<Byte>): Result<(Fixed64, seq<Byte>), ErrorKind> {
    if |buf| < LEN then Failure(InvalidInput) else Success((Fixed64(I64FromLe(buf[..LEN])), buf[LEN..]))
  }

  /** The derived `Position::deserialize`: x, y, z in turn, stopping at the first error. */
  function DecodePosition(buf: seq<Byte>): Result<(Position, seq<Byte>), ErrorKind> {
    match DecodeFixed(buf)
    case Failure(e) => Failure(e)
    case Success((x, r1)) =>
      match DecodeFixed(r1)
      case Failure(e) => Failure(e)
      case Success((y, r2)) =>
        match DecodeFixed(r2)
        case Failure(e) => Failure(e)
        case Success((z, r3)) => Success((Position(x, y, z), r3))
  }

  /** The derived `Cell::deserialize`: x, y, z in turn, stopping at the first error. */
  function DecodeCell(buf: seq<Byte>): Result<(Cell, seq<Byte>), ErrorKind> {
    match DecodeI64(buf)
    case Failure(e) => Failure(e)
    case Success((x, r1)) =>
      match DecodeI64(r1)
      case Failure(e) => Failure(e)
      case Success((y, r2)) =>
        match DecodeI64(r2)
        case Failure(e) => Failure(e)
        case Success((z, r3)) => Success((Cell(x, y, z), r3))
  }

  /** Borsh's `try_from_slice`: decode, then refuse input that was not read to the end. */
  function PositionFromSlice(v: seq<Byte>): Result<Position, ErrorKind> {
    match DecodePosition(v)
    case Failure(e) => Failure(e)
    case Success((p, rest)) => if rest == [] then Success(p) else Failure(InvalidData)
  }

  function CellFromSlice(v: seq<Byte>): Result<Cell, ErrorKind> {
    match DecodeCell(v)
    case Failure(e) => Failure(e)
    case Success((c, rest)) => if rest == [] then Success(c) else Failure(InvalidData)
  }

  /** A `Fixed64` is written as exactly 8 bytes, the little-endian bytes of its raw bit pattern. */
  lemma EncodeFixedLayout(f: Fixed64)
    ensures |EncodeFixed(f)| == LEN
    ensures FromLe(EncodeFixed(f)) == ToBits(f.bits)
  {
    Pow256Of8();
    FromLeOfLeBytes(ToBits(f.bits), LEN);
  }

  /** Decoding what was encoded, followed by anything, gives the value back and leaves exactly what followed. */
  lemma DecodeFixedRoundTrip(f: Fixed64, rest: seq<Byte>)
    ensures DecodeFixed(EncodeFixed(f) + rest) == Success((f, rest))
  {
    var buf := EncodeFixed(f) + rest;
    assert buf[..LEN] == EncodeFixed(f);
    assert buf[LEN..] == rest;
    I64LeRoundTrip(f.bits, EncodeFixed(f));
  }

  /**
   * Any 8 or more bytes decode, consuming exactly the first 8, which are the
   * encoding of the decoded value; fewer than 8 are an `InvalidInput` error.
   */
  lemma DecodeFixedConsumes(buf: seq<Byte>)
    ensures |buf| < LEN <==> DecodeFixed(buf) == Failure(InvalidInput)
    ensures |buf| >= LEN ==>
              && DecodeFixed(buf).Success?
              && EncodeFixed(DecodeFixed(buf).value.0) == buf[..LEN]
              && DecodeFixed(buf).value.1 == buf[LEN..]
  {
    if |buf| >= LEN {
      I64LeRoundTrip(0, buf[..LEN]);
    }
  }

  /** Borsh's `i64` decoder fails exactly on fewer than 8 bytes; otherwise it reads the first 8, which re-encode to themselves. */
  lemma DecodeI64Consumes(buf: seq<Byte>)
    ensures |buf| < LEN <==> DecodeI64(buf) == Failure(InvalidInput)
    ensures |buf| >= LEN ==>
              && DecodeI64(buf).Success?
              && I64ToLe(DecodeI64(buf).value.0) == buf[..LEN]
              && DecodeI64(buf).value.1 == buf[LEN..]
  {
    if |buf| >= LEN {
      I64LeRoundTrip(0, buf[..LEN]);
    }
  }

  lemma DecodeI64RoundTrip(i: I64, rest: seq<Byte>)
    ensures DecodeI64(I64ToLe(i) + rest) == Success((i, rest))
  {
    var buf := I64ToLe(i) + rest;
    assert buf[..LEN] == I64ToLe(i);
    assert buf[LEN..] == rest;
    I64LeRoundTrip(i, I64ToLe(i));
  }

  /** A position is 24 bytes; decoding them, followed by anything, gives the position and what followed. */
  lemma PositionRoundTrip(p: Position, rest: seq<Byte>)
    ensures |EncodePosition(p)| == 3 * LEN
    ensures DecodePosition(EncodePosition(p) + rest) == Success((p, rest))
  {
    var ex, ey, ez := EncodeFixed(p.x), EncodeFixed(p.y), EncodeFixed(p.z);
    assert EncodePosition(p) + rest == ex + (ey + (ez + rest));
    DecodeFixedRoundTrip(p.x, ey + (ez + rest));
    DecodeFixedRoundTrip(p.y, ez + rest);
    DecodeFixedRoundTrip(p.z, rest);
  }

  /** A cell is 24 bytes; decoding them, followed by anything, gives the cell and what followed. */
  lemma CellRoundTrip(c: Cell, rest: seq<Byte>)
    ensures |EncodeCell(c)| == 3 * LEN
    ensures DecodeCell(EncodeCell(c) + rest) == Success((c, rest))
  {
    var ex, ey, ez := I64ToLe(c.x), I64ToLe(c.y), I64ToLe(c.z);
    assert EncodeCell(c) + rest == ex + (ey + (ez + rest));
    DecodeI64RoundTrip(c.x, ey + (ez + rest));
    DecodeI64RoundTrip(c.y, ez + rest);
    DecodeI64RoundTrip(c.z, rest);
  }

  /** `try_from_slice(try_to_vec(x)) == x` for positions and cells, as the crate's tests check. */
  lemma FromSliceRoundTrip(p: Position, c: Cell)
    ensures PositionFromSlice(EncodePosition(p)) == Success(p)
    ensures CellFromSlice(EncodeCell(c)) == Success(c)
  {
    PositionRoundTrip(p, []);
    assert EncodePosition(p) + [] == EncodePosition(p);
    CellRoundTrip(c, []);
    assert EncodeCell(c) + [] == EncodeCell(c);
  }

  // ---------------------------------------------------------------------------
  // The writer and reader the source serialises into and deserialises from

  /** A growable byte sink (`Vec<u8>` as a `Write`). */
  class Writer {
    var bytes: seq<Byte>

    constructor ()
      ensures bytes == []
    {
      bytes := [];
    }

    /** `write_all`: append every byte. */
    method WriteAll(data: seq<Byte>)
      modifies this
      ensures bytes == old(bytes) + data
    {
      bytes := bytes + data;
    }
  }

  /** The input slice `buf` that deserialisation advances past what it reads. */
  class Reader {
    var buf: seq<Byte>

    constructor (input: seq<Byte>)
      ensures buf == input
    {
      buf := input;
    }
  }

  /** Appending three chunks one after another appends their concatenation. */
  lemma AppendThree<T>(s: seq<T>, a: seq<T>, b: seq<T>, c: seq<T>)
    ensures s + a + b + c == s + (a + b + c)
  {
  }

  /** `Fixed64::serialize`. */
  method SerializeFixed(f: Fixed64, w: Writer)
    modifies w
    ensures w.bytes == old(w.bytes) + EncodeFixed(f)
  {
    w.WriteAll(I64ToLe(f.bits));
  }

  /** The derived `Position::serialize`: the three coordinates in order. */
  method SerializePosition(p: Position, w: Writer)
    modifies w
    ensures w.bytes == old(w.bytes) + EncodePosition(p)
  {
    AppendThree(w.bytes, EncodeFixed(p.x), EncodeFixed(p.y), EncodeFixed(p.z));
    SerializeFixed(p.x, w);
    SerializeFixed(p.y, w);
    SerializeFixed(p.z, w);
  }

  /** Borsh's `i64::serialize`. */
  method SerializeI64(i: I64, w: Writer)
    modifies w
    ensures w.bytes == old(w.bytes) + I64ToLe(i)
  {
    w.WriteAll(I64ToLe(i));
  }

  /** The derived `Cell::serialize`: the three `i64` coordinates in order. */
  method SerializeCell(c: Cell, w: Writer)
    modifies w
    ensures w.bytes == old(w.bytes) + EncodeCell(c)
  {
    AppendThree(w.bytes, I64ToLe(c.x), I64ToLe(c.y), I64ToLe(c.z));
    SerializeI64(c.x, w);
    SerializeI64(c.y, w);
    SerializeI64(c.z, w);
  }

  /**
   * `Fixed64::deserialize`: refuse fewer than 8 bytes without touching the
   * input, else read 8 bytes and advance the input past them.
   */
  method DeserializeFixed(r: Reader) returns (res: Result<Fixed64, ErrorKind>)
    modifies r
    ensures |old(r.buf)| < LEN ==> res == Failure(InvalidInput) && r.buf == old(r.buf)
    ensures |old(r.buf)| >= LEN ==> res.Success? && DecodeFixed(old(r.buf)) == Success((res.value, r.buf))
  {
    if |r.buf| < LEN {
      return Failure(InvalidInput);
    }
    var v := I64FromLe(r.buf[..LEN]);
    r.buf := r.buf[LEN..];
    res := Success(Fixed64(v));
  }

  /** Borsh's `i64::deserialize`, with the same length check. */
  method DeserializeI64(r: Reader) returns (res: Result<I64, ErrorKind>)
    modifies r
    ensures |old(r.buf)| < LEN ==> res == Failure(InvalidInput) && r.buf == old(r.buf)
    ensures |old(r.buf)| >= LEN ==> res.Success? && DecodeI64(old(r.buf)) == Success((res.value, r.buf))
  {
    if |r.buf| < LEN {
      return Failure(InvalidInput);
    }
    var v := I64FromLe(r.buf[..LEN]);
    r.buf := r.buf[LEN..];
    res := Success(v);
  }

  function Min(a: int, b: int): int {
    if a < b then a else b
  }

  /**
   * The derived `Position::deserialize`. On success the input is advanced
   * past 24 bytes; on failure it stays advanced past the coordinates that
   * were read before the short one.
   */
  method DeserializePosition(r: Reader) returns (res: Result<Position, ErrorKind>)
    modifies r
    ensures DecodePosition(old(r.buf)).Success? <==> res.Success?
    ensures res.Success? ==> DecodePosition(old(r.buf)) == Success((res.value, r.buf))
    ensures res.Failure? ==> res.error == InvalidInput
    ensures r.buf == old(r.buf)[LEN * Min(|old(r.buf)| / LEN, 3)..]
  {
    var x := DeserializeFixed(r);
    if x.Failure? {
      return Failure(x.error);
    }
    var y := DeserializeFixed(r);
    if y.Failure? {
      return Failure(y.error);
    }
    var z := DeserializeFixed(r);
    if z.Failure? {
      return Failure(z.error);
    }
    res := Success(Position(x.value, y.value, z.value));
  }

  /** The derived `Cell::deserialize`, consuming the input like `DeserializePosition`. */
  method DeserializeCell(r: Reader) returns (res: Result<Cell, ErrorKind>)
    modifies r
    ensures DecodeCell(old(r.buf)).Success? <==> res.Success?
    ensures res.Success? ==> DecodeCell(old(r.buf)) == Success((res.value, r.buf))
    ensures res.Failure? ==> res.error == InvalidInput
    ensures r.buf == old(r.buf)[LEN * Min(|old(r.buf)| / LEN, 3)..]
  {
    var x := DeserializeI64(r);
    if x.Failure? {
      return Failure(x.error);
    }
    var y := DeserializeI64(r);
    if y.Failure? {
      return Failure(y.error);
    }
    var z := DeserializeI64(r);
    if z.Failure? {
      return Failure(z.error);
    }
    res := Success(Cell(x.value, y.value, z.value));
  }

  /** `Position::try_to_vec`: serialise into a fresh buffer. */
  method PositionToVec(p: Position) returns (v: seq<Byte>)
    ensures v == EncodePosition(p)
    ensures |v| == 3 * LEN
    ensures PositionFromSlice(v) == Success(p)
  {
    var w := new Writer();
    SerializePosition(p, w);
    v := w.bytes;
    assert v == EncodePosition(p);
    PositionRoundTrip(p, []);
    FromSliceRoundTrip(p, Cell(0, 0, 0));
  }

  /** `Position::try_from_slice`: deserialise from a copy of the slice, which must be read to its end. */
  method PositionFromBytes(v: seq<Byte>) returns (res: Result<Position, ErrorKind>)
    ensures res == PositionFromSlice(v)
    ensures res.Success? ==> EncodePosition(res.value) == v
  {
    var r := new Reader(v);
    var d := DeserializePosition(r);
    if d.Failure? {
      return Failure(d.error);
    }
    if r.buf != [] {
      return Failure(InvalidData);
    }
    res := Success(d.value);
    PositionDecodeInverse(v);
  }

  /** What decodes as a position is the encoding of that position followed by the rest. */
  lemma PositionDecodeInverse(buf: seq<Byte>)
    requires DecodePosition(buf).Success?
    ensures EncodePosition(DecodePosition(buf).value.0) + DecodePosition(buf).value.1 == buf
  {
    DecodeFixedConsumes(buf);
    var r1 := buf[LEN..];
    DecodeFixedConsumes(r1);
    var r2 := r1[LEN..];
    DecodeFixedConsumes(r2);
    assert buf == buf[..LEN] + r1[..LEN] + r2[..LEN] + r2[LEN..];
  }

  /** What decodes as a cell is the encoding of that cell followed by the rest. */
  lemma CellDecodeInverse(buf: seq<Byte>)
    requires DecodeCell(buf).Success?
    ensures EncodeCell(DecodeCell(buf).value.0) + DecodeCell(buf).value.1 == buf
  {
    DecodeI64Consumes(buf);
    var r1 := buf[LEN..];
    DecodeI64Consumes(r1);
    var r2 := r1[LEN..];
    DecodeI64Consumes(r2);
    assert buf == buf[..LEN] + r1[..LEN] + r2[..LEN] + r2[LEN..];
  }

  /** `Cell::try_to_vec`. */
  method CellToVec(c: Cell) returns (v: seq<Byte>)
    ensures v == EncodeCell(c)
    ensures |v| == 3 * LEN
    ensures CellFromSlice(v) == Success(c)
  {
    var w := new Writer();
    SerializeCell(c, w);
    v := w.bytes;
    assert v == EncodeCell(c);
    CellRoundTrip(c, []);
    FromSliceRoundTrip(Position(Fixed64(0), Fixed64(0), Fixed64(0)), c);
  }

  /** `Cell::try_from_slice`. */
  method CellFromBytes(v: seq<Byte>) returns (res: Result<Cell, ErrorKind>)
    ensures res == CellFromSlice(v)
    ensures res.Success? ==> EncodeCell(res.value) == v
  {
    var r := new Reader(v);
    var d := DeserializeCell(r);
    if d.Failure? {
      return Failure(d.error);
    }
    if r.buf != [] {
      return Failure(InvalidData);
    }
    res := Success(d.value);
    CellDecodeInverse(v);
  }
}
