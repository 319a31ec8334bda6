/** A 64-bit union: eight bytes that every integer and bool field views in
    little-endian order (the float views are not modelled), a byte indexer,
    and copying to and from a byte buffer that advances an offset. The C#
    struct is mutated in place by its methods, so it is a class whose one
    field is the sequence of its eight bytes. */
module Union64Model {
  import opened Ints
  import opened Wrappers

  type byte = x: int | 0 <= x < 256

  /** 256 to the power n: one more than the largest n-byte unsigned value. */
  function Pow256(n: nat): (r: int)
    ensures r >= 1
  {
    if n == 0 then 1 else 256 * Pow256(n - 1)
  }

  function Zeros(n: nat): (r: seq<byte>)
    ensures |r| == n && forall i :: 0 <= i < n ==> r[i] == 0
  {
    if n == 0 then [] else [0] + Zeros(n - 1)
  }

  /** The unsigned value of bytes stored least significant first. */
  function Unsigned(bs: seq<byte>): (r: nat)
    ensures r < Pow256(|bs|)
  {
    if |bs| == 0 then 0 else bs[0] + 256 * Unsigned(bs[1..])
  }

  /** The n bytes, least significant first, of an unsigned value that fits in them. */
  function Encode(v: nat, n: nat): (r: seq<byte>)
    requires v < Pow256(n)
    ensures |r| == n
  {
    if n == 0 then [] else [v % 256] + Encode(v / 256, n - 1)
  }

  /** The two's-complement reading of n bytes. */
  function Signed(bs: seq<byte>): (r: int)
    ensures |bs| > 0 ==> -Pow256(|bs|) / 2 <= r < Pow256(|bs|) / 2
  {
    var u := Unsigned(bs);
    if |bs| > 0 && u >= Pow256(|bs|) / 2 then u - Pow256(|bs|) else u
  }

  /** The n-byte two's-complement bit pattern of a signed value. */
  function TwosComplement(v: int, n: nat): (r: nat)
    requires n > 0 && -Pow256(n) / 2 <= v < Pow256(n) / 2
    ensures r < Pow256(n)
    ensures v >= 0 ==> r == v
    ensures v < 0 ==> r + Pow256(n) / 2 >= Pow256(n) && r - Pow256(n) == v
  {
    Pow256Even(n);
    if v < 0 then v + Pow256(n) else v
  }

  lemma Pow256Even(n: nat)
    requires n > 0
    ensures Pow256(n) % 2 == 0 && Pow256(n) >= 256
  {
    var q := Pow256(n - 1);
    assert Pow256(n) == 256 * q && q >= 1;
    assert 256 * q == 2 * (128 * q);
  }

  /** Encoding then decoding gives back the value. */
  lemma {:induction false} UnsignedOfEncode(v: nat, n: nat)
    requires v < Pow256(n)
    ensures Unsigned(Encode(v, n)) == v
  {
    if n > 0 {
      UnsignedOfEncode(v / 256, n - 1);
      assert Encode(v, n)[1..] == Encode(v / 256, n - 1);
    }
  }

  /** Decoding then encoding gives back the bytes. */
  lemma {:induction false} EncodeOfUnsigned(bs: seq<byte>)
    ensures Encode(Unsigned(bs), |bs|) == bs
  {
    if |bs| > 0 {
      EncodeOfUnsigned(bs[1..]);
      var v := Unsigned(bs);
      assert v % 256 == bs[0] && v / 256 == Unsigned(bs[1..]);
      assert [bs[0]] + bs[1..] == bs;
    }
  }

  /** The signed view of an encoded two's-complement pattern is the value itself. */
  lemma SignedOfEncode(v: int, n: nat)
    requires n > 0 && -Pow256(n) / 2 <= v < Pow256(n) / 2
    ensures Signed(Encode(TwosComplement(v, n), n)) == v
  {
    UnsignedOfEncode(TwosComplement(v, n), n);
  }

  /** Views alias: the value of a concatenation is the low part plus the high part
      shifted past it (for instance longValue from int0 and int1). */
  lemma {:induction false} UnsignedOfConcat(lo: seq<byte>, hi: seq<byte>)
    ensures Unsigned(lo + hi) == Unsigned(lo) + Pow256(|lo|) * Unsigned(hi)
  {
    if |lo| == 0 {
      assert lo + hi == hi;
    } else {
      var rest := lo[1..];
      assert (lo + hi)[1..] == rest + hi;
      UnsignedOfConcat(rest, hi);
      var p, u, h := Pow256(|rest|), Unsigned(rest), Unsigned(hi);
      assert Unsigned(lo + hi) == lo[0] + 256 * (u + p * h);
      MulDistributes(256, u, p * h);
      MulAssociates(256, p, h);
    }
  }

  lemma MulDistributes(a: int, b: int, c: int)
    ensures a * (b + c) == a * b + a * c
  {
  }

  lemma MulAssociates(a: int, b: int, c: int)
    ensures a * (b * c) == (a * b) * c
  {
  }

  lemma {:induction false} UnsignedOfZeros(n: nat)
    ensures Unsigned(Zeros(n)) == 0
  {
    if n > 0 {
      assert Zeros(n)[1..] == Zeros(n - 1);
      UnsignedOfZeros(n - 1);
    }
  }

  /** The widths in bytes a typed view can have. */
  predicate IsWidth(n: nat) {
    n == 1 || n == 2 || n == 4 || n == 8
  }

  /** The eight bytes left by a constructor that zeroes the union and then
      stores `pattern` in its first `width` bytes. */
  function Widened(width: nat, pattern: nat): (r: seq<byte>)
    requires IsWidth(width) && pattern < Pow256(width)
    ensures |r| == 8
  {
    Encode(pattern, width) + Zeros(8 - width)
  }

  /** A value stored by a constructor reads back through the view of its own
      width, and, zero-extended, through the whole 64-bit unsigned view. */
  lemma WidenedViews(width: nat, pattern: nat)
    requires IsWidth(width) && pattern < Pow256(width)
    ensures Unsigned(Widened(width, pattern)[..width]) == pattern
    ensures Unsigned(Widened(width, pattern)) == pattern
    ensures forall i :: width <= i < 8 ==> Widened(width, pattern)[i] == 0
  {
    var e := Encode(pattern, width);
    PaddedViews(e, 8 - width);
    UnsignedOfEncode(pattern, width);
  }

  /** Zero bytes appended after `e` leave its unsigned value as it was. */
  lemma PaddedViews(e: seq<byte>, k: nat)
    ensures (e + Zeros(k))[..|e|] == e && Unsigned(e + Zeros(k)) == Unsigned(e)
    ensures forall i :: |e| <= i < |e| + k ==> (e + Zeros(k))[i] == 0
  {
    PaddedValue(e, k);
    assert (e + Zeros(k))[..|e|] == e;
  }

  lemma PaddedValue(e: seq<byte>, k: nat)
    ensures Unsigned(e + Zeros(k)) == Unsigned(e)
  {
    UnsignedOfConcat(e, Zeros(k));
    UnsignedOfZeros(k);
    var p := Pow256(|e|);
    assert p * Unsigned(Zeros(k)) == p * 0 == 0;
  }

  /** A signed value stored by a constructor reads back through the signed view
      of its width (new Union64(int x).intValue == x). */
  lemma WidenedSignedView(width: nat, v: int)
    requires IsWidth(width) && -Pow256(width) / 2 <= v < Pow256(width) / 2
    ensures Signed(Widened(width, TwosComplement(v, width))[..width]) == v
  {
    var w := Widened(width, TwosComplement(v, width));
    assert w[..width] == Encode(TwosComplement(v, width), width);
    SignedOfEncode(v, width);
  }

  /** The union's bytes after Read has loaded `n` bytes from `buffer` at `offset`. */
  function Loaded(bytes: seq<byte>, buffer: seq<byte>, offset: int, n: nat): (r: seq<byte>)
    requires |bytes| == 8 && n <= 8 && (n == 0 || (0 <= offset && offset + n <= |buffer|))
    ensures |r| == 8
  {
    seq(8, i requires 0 <= i < 8 => if i < n then buffer[offset + i] else bytes[i])
  }

  /** The buffer after Write has stored the first `n` bytes of the union at `offset`. */
  function Stored(buffer: seq<byte>, offset: int, bytes: seq<byte>, n: nat): (r: seq<byte>)
    requires |bytes| == 8 && n <= 8 && (n == 0 || (0 <= offset && offset + n <= |buffer|))
    ensures |r| == |buffer|
  {
    seq(|buffer|, j requires 0 <= j < |buffer| =>
      if offset <= j < offset + n then bytes[j - offset] else buffer[j])
  }

  /** Writing n bytes and reading them back at the same offset reproduces them,
      whatever the reading union held before. */
  lemma LoadedAfterStored(bytes: seq<byte>, other: seq<byte>, buffer: seq<byte>, offset: int, n: nat)
    requires |bytes| == 8 && |other| == 8 && n <= 8
    requires n == 0 || (0 <= offset && offset + n <= |buffer|)
    ensures Loaded(other, Stored(buffer, offset, bytes, n), offset, n)[..n] == bytes[..n]
    ensures Loaded(bytes, Stored(buffer, offset, bytes, n), offset, n) == bytes
  {
  }

  /** Reading n bytes and writing them back to the same place leaves the buffer as it was. */
  lemma StoredAfterLoaded(bytes: seq<byte>, buffer: seq<byte>, offset: int, n: nat)
    requires |bytes| == 8 && n <= 8
    requires n == 0 || (0 <= offset && offset + n <= |buffer|)
    ensures Stored(buffer, offset, Loaded(bytes, buffer, offset, n), n) == buffer
  {
  }

  /** How many copy steps succeed before a step fails: the buffer index runs out
      of the buffer, or the union index reaches 8. */
  function Reach(length: int, offset: int): (k: nat)
    ensures k <= 8
    ensures k == 0 || (0 <= offset && offset + k <= length)
  {
    if offset < 0 || offset >= length then 0
    else if length - offset < 8 then length - offset
    else 8
  }

  /** The number of bytes a copy of `count` bytes moves when it succeeds. */
  function Moved(count: int): nat {
    if count < 0 then 0 else count
  }

  /** A copy of `count` bytes from or to `offset` succeeds exactly when it stays
      inside both the buffer and the union. */
  lemma ReachMeansFits(length: int, offset: int, count: int)
    ensures count <= Reach(length, offset) <==>
      (count <= 0 || (count <= 8 && 0 <= offset && offset + count <= length))
  {
  }

  /** The failure Read reports at step k: the buffer is indexed before the union. */
  function ReadError(length: int, offset: int, k: int): Error {
    if 0 <= offset + k < length then IndexOutOfRange else ArgumentOutOfRange
  }

  /** The failure Write reports at step k: the union is indexed before the buffer. */
  function WriteError(k: int): Error {
    if k >= 8 then IndexOutOfRange else ArgumentOutOfRange
  }

  /** The offset left after `k` steps, the last of which advanced the offset and
      then failed: C# `offset++` happens before the indexing that throws. */
  function FailedOffset(offset: int32, k: nat): int32 {
    Wrap32(offset + k + 1)
  }

  class Union64 {
    /** byte0 .. byte7; every other field is a view of these. */
    var bytes: seq<byte>

    ghost predicate Valid()
      reads this
    {
      |bytes| == 8
    }

    /** new Union64(): all zero. */
    constructor ()
      ensures Valid() && bytes == Zeros(8)
    {
      bytes := Zeros(8);
    }

    /** The constructors from bool, byte, char, ushort, uint and ulong: the union
        is zeroed, then the value's bytes are stored from byte 0. */
    constructor FromUnsigned(width: nat, value: nat)
      requires IsWidth(width) && value < Pow256(width)
      ensures Valid() && bytes == Widened(width, value)
    {
      bytes := Widened(width, value);
    }

    /** The constructors from sbyte, short, int and long: the two's-complement
        pattern of the value is stored from byte 0 over a zeroed union. */
    constructor FromSigned(width: nat, value: int)
      requires IsWidth(width) && -Pow256(width) / 2 <= value < Pow256(width) / 2
      ensures Valid() && bytes == Widened(width, TwosComplement(value, width))
    {
      bytes := Widened(width, TwosComplement(value, width));
    }

    /** The unsigned view of `width` bytes from byte `at` (byteValue, ushort0..3,
        uint0..1, ulongValue, charValue as a UTF-16 code unit). */
    function UnsignedView(at: nat, width: nat): (r: nat)
      reads this
      requires Valid() && at + width <= 8
      ensures r < Pow256(width)
    {
      Unsigned(bytes[at..at + width])
    }

    /** The signed view (sbyte0..7, short0..3, int0..1, longValue). */
    function SignedView(at: nat, width: nat): (r: int)
      reads this
      requires Valid() && at + width <= 8 && width > 0
      ensures -Pow256(width) / 2 <= r < Pow256(width) / 2
    {
      Signed(bytes[at..at + width])
    }

    /** boolValue, bool0..7: a byte reads as true when it is not zero. */
    function BoolView(at: nat): (r: bool)
      reads this
      requires Valid() && at < 8
      ensures r <==> bytes[at] != 0
    {
      bytes[at] != 0
    }

    /** The indexer's getter. */
    function Get(index: int): (r: Result<byte>)
      reads this
      requires Valid()
      ensures r.Ok? <==> 0 <= index < 8
      ensures r.Ok? ==> r.value == bytes[index]
      ensures r.Err? ==> r.error == IndexOutOfRange
    {
      if 0 <= index < 8 then Ok(bytes[index]) else Err(IndexOutOfRange)
    }

    /** The indexer's setter: byte `index` becomes `value`, the other seven stay. */
    method Set(index: int, value: byte) returns (outcome: Outcome)
      requires Valid()
      modifies this
      ensures Valid()
      ensures outcome == (if 0 <= index < 8 then Done else Fail(IndexOutOfRange))
      ensures outcome.Done? ==> bytes[index] == value
      ensures forall i :: 0 <= i < 8 && i != index ==> bytes[i] == old(bytes[i])
    {
      if 0 <= index < 8 {
        bytes := bytes[index := value];
        outcome := Done;
      } else {
        outcome := Fail(IndexOutOfRange);
      }
    }

    /** Read(buffer, ref offset, count): loads bytes 0 .. count-1 from
        buffer[offset ..], advancing the offset by one per byte. */
    method Read(buffer: array<byte>, offset: int32, count: int32) returns (outcome: Outcome, offset': int32)
      requires Valid() && buffer.Length < 0x8000_0000
      modifies this
      ensures Valid()
      ensures outcome.Done? <==> count as int <= Reach(buffer.Length, offset)
      ensures outcome.Done? ==>
        offset' == offset + Moved(count) && bytes == Loaded(old(bytes), buffer[..], offset, Moved(count))
      ensures outcome.Fail? ==>
        var k := Reach(buffer.Length, offset);
        && offset' == FailedOffset(offset, k)
        && outcome.error == ReadError(buffer.Length, offset, k)
        && bytes == Loaded(old(bytes), buffer[..], offset, k)
    {
      var index := 0;
      offset' := offset;
      while index < count as int
        invariant 0 <= index <= Reach(buffer.Length, offset) && index <= Moved(count)
        invariant offset' == offset + index
        invariant Valid() && bytes == Loaded(old(bytes), buffer[..], offset, index)
        decreases count as int - index
      {
        var at := offset';
        offset' := Wrap32(offset' as int + 1);
        if !(0 <= at < buffer.Length) {
          outcome := Fail(ArgumentOutOfRange);
          return;
        }
        var stored := Set(index, buffer[at]);
        if stored.Fail? {
          outcome := stored;
          return;
        }
        index := index + 1;
      }
      outcome := Done;
    }

    /** Write(buffer, ref offset, count): stores bytes 0 .. count-1 into
        buffer[offset ..], advancing the offset by one per byte. */
    method Write(buffer: array<byte>, offset: int32, count: int32) returns (outcome: Outcome, offset': int32)
      requires Valid() && buffer.Length < 0x8000_0000
      modifies buffer
      ensures outcome.Done? <==> count as int <= Reach(buffer.Length, offset)
      ensures outcome.Done? ==>
        offset' == offset + Moved(count) && buffer[..] == Stored(old(buffer[..]), offset, bytes, Moved(count))
      ensures outcome.Fail? ==>
        var k := Reach(buffer.Length, offset);
        && offset' == FailedOffset(offset, k)
        && outcome.error == WriteError(k)
        && buffer[..] == Stored(old(buffer[..]), offset, bytes, k)
    {
      var index := 0;
      offset' := offset;
      while index < count as int
        invariant 0 <= index <= Reach(buffer.Length, offset) && index <= Moved(count)
        invariant offset' == offset + index
        invariant buffer[..] == Stored(old(buffer[..]), offset, bytes, index)
        decreases count as int - index
      {
        var at := offset';
        offset' := Wrap32(offset' as int + 1);
        var got := Get(index);
        if got.Err? {
          outcome := Fail(got.error);
          return;
        }
        if !(0 <= at < buffer.Length) {
          outcome := Fail(ArgumentOutOfRange);
          return;
        }
        buffer[at] := got.value;
        index := index + 1;
      }
      outcome := Done;
    }

    /** The typed readers (ReadBool .. ReadDouble): Read with the width of the type. */
    method ReadValue(kind: ValueKind, buffer: array<byte>, offset: int32) returns (outcome: Outcome, offset': int32)
      requires Valid() && buffer.Length < 0x8000_0000
      modifies this
      ensures Valid()
      ensures outcome.Done? <==> 0 <= offset && offset + SizeOf(kind) <= buffer.Length
      ensures outcome.Done? ==>
        offset' == offset + SizeOf(kind) && bytes == Loaded(old(bytes), buffer[..], offset, SizeOf(kind))
      ensures outcome.Fail? ==>
        var k := Reach(buffer.Length, offset);
        && outcome.error == ArgumentOutOfRange
        && offset' == FailedOffset(offset, k)
        && bytes == Loaded(old(bytes), buffer[..], offset, k)
        && bytes[SizeOf(kind)..] == old(bytes)[SizeOf(kind)..]
    {
      ReachMeansFits(buffer.Length, offset, SizeOf(kind));
      outcome, offset' := Read(buffer, offset, SizeOf(kind) as int32);
    }

    /** The typed writers (WriteBool .. WriteDouble): Write with the width of the type. */
    method WriteValue(kind: ValueKind, buffer: array<byte>, offset: int32) returns (outcome: Outcome, offset': int32)
      requires Valid() && buffer.Length < 0x8000_0000
      modifies buffer
      ensures outcome.Done? <==> 0 <= offset && offset + SizeOf(kind) <= buffer.Length
      ensures outcome.Done? ==>
        offset' == offset + SizeOf(kind) && buffer[..] == Stored(old(buffer[..]), offset, bytes, SizeOf(kind))
      ensures outcome.Fail? ==>
        var k := Reach(buffer.Length, offset);
        && outcome.error == ArgumentOutOfRange
        && offset' == FailedOffset(offset, k)
        && buffer[..] == Stored(old(buffer[..]), offset, bytes, k)
    {
      ReachMeansFits(buffer.Length, offset, SizeOf(kind));
      outcome, offset' := Write(buffer, offset, SizeOf(kind) as int32);
    }
  }

  /** The element types of the typed reader and writer pairs. */
  datatype ValueKind = Bool | Byte | SByte | Char | Short | UShort | Int | UInt | Float | Long | ULong | Double

  /** Bytes moved by each typed pair. */
  function SizeOf(kind: ValueKind): (n: nat)
    ensures IsWidth(n)
    ensures n == 1 <==> kind in {Bool, Byte, SByte}
    ensures n == 2 <==> kind in {Char, Short, UShort}
    ensures n == 4 <==> kind in {Int, UInt, Float}
    ensures n == 8 <==> kind in {Long, ULong, Double}
  {
    match kind
    case Bool | Byte | SByte => 1
    case Char | Short | UShort => 2
    case Int | UInt | Float => 4
    case Long | ULong | Double => 8
  }

  /** Write then Read of the same count at the same offset gives the reading union
      the writer's first `count` bytes and leaves both offsets at the same place. */
  method WriteThenRead(writer: Union64, reader: Union64, buffer: array<byte>, offset: int32, count: int32)
    returns (written: Outcome, read: Outcome)
    requires writer.Valid() && reader.Valid() && writer != reader && buffer.Length < 0x8000_0000
    modifies buffer, reader
    ensures written.Done? <==> read.Done?
    ensures reader.Valid() && (read.Done? ==> Moved(count) <= 8)
    ensures read.Done? ==> reader.bytes[..Moved(count)] == writer.bytes[..Moved(count)]
    ensures read.Done? ==> reader.bytes[Moved(count)..] == old(reader.bytes)[Moved(count)..]
  {
    var end;
    written, end := writer.Write(buffer, offset, count);
    if written.Fail? {
      read := written;
      return;
    }
    LoadedAfterStored(writer.bytes, reader.bytes, old(buffer[..]), offset, Moved(count));
    read, end := reader.Read(buffer, offset, count);
  }
}
