/** `BinaryWriter` and `BinaryReader`: cursors over a byte buffer, and what a sequence of typed writes
    and the matching sequence of typed reads mean together. */
module BinaryCodec {
  import opened Arithmetic
  import opened Wrappers
  import opened ByteOrder

  // ---- Fields and their bytes ----

  datatype Field =
    | UInt8(v: int) | Int8(v: int)
    | UInt16BE(v: int) | Int16BE(v: int)
    | UInt32BE(v: int) | Int32BE(v: int) | UInt32LE(v: int)
    | BigUInt64BE(v: int)
    | Raw(data: seq<byte>)

  datatype FieldType = TUInt8 | TInt8 | TUInt16BE | TInt16BE | TUInt32BE | TInt32BE | TUInt32LE | TBigUInt64BE
    | TRaw(length: nat) {
    function Width(): nat {
      match this
      case TUInt8 => 1
      case TInt8 => 1
      case TUInt16BE => 2
      case TInt16BE => 2
      case TUInt32BE => 4
      case TInt32BE => 4
      case TUInt32LE => 4
      case TBigUInt64BE => 8
      case TRaw(n) => n
    }
  }

  function TypeOf(f: Field): FieldType {
    match f
    case UInt8(_) => TUInt8
    case Int8(_) => TInt8
    case UInt16BE(_) => TUInt16BE
    case Int16BE(_) => TInt16BE
    case UInt32BE(_) => TUInt32BE
    case Int32BE(_) => TInt32BE
    case UInt32LE(_) => TUInt32LE
    case BigUInt64BE(_) => TBigUInt64BE
    case Raw(d) => TRaw(|d|)
  }

  function Encoded(f: Field): (b: seq<byte>)
    ensures |b| == TypeOf(f).Width()
  {
    match f
    case UInt8(v) => BigEndian(v, 1)
    case Int8(v) => BigEndian(v, 1)
    case UInt16BE(v) => BigEndian(v, 2)
    case Int16BE(v) => BigEndian(v, 2)
    case UInt32BE(v) => BigEndian(v, 4)
    case Int32BE(v) => BigEndian(v, 4)
    case UInt32LE(v) => LittleEndian(v, 4)
    case BigUInt64BE(v) => BigEndian(v, 8)
    case Raw(d) => d
  }

  function Decoded(t: FieldType, b: seq<byte>): Field {
    match t
    case TUInt8 => UInt8(FromBigEndian(b))
    case TInt8 => Int8(Signed(FromBigEndian(b), 1))
    case TUInt16BE => UInt16BE(FromBigEndian(b))
    case TInt16BE => Int16BE(Signed(FromBigEndian(b), 2))
    case TUInt32BE => UInt32BE(FromBigEndian(b))
    case TInt32BE => Int32BE(Signed(FromBigEndian(b), 4))
    case TUInt32LE => UInt32LE(FromLittleEndian(b))
    case TBigUInt64BE => BigUInt64BE(FromBigEndian(b))
    case TRaw(_) => Raw(b)
  }

  function NumberField(t: FieldType, v: int): Field
    requires !t.TRaw?
  {
    match t
    case TUInt8 => UInt8(v)
    case TInt8 => Int8(v)
    case TUInt16BE => UInt16BE(v)
    case TInt16BE => Int16BE(v)
    case TUInt32BE => UInt32BE(v)
    case TInt32BE => Int32BE(v)
    case TUInt32LE => UInt32LE(v)
    case TBigUInt64BE => BigUInt64BE(v)
  }

  const TWO8: int := 0x100
  const TWO16: int := 0x1_0000
  const TWO32: int := 0x1_0000_0000
  const TWO64: int := 0x1_0000_0000_0000_0000

  /** Reduced into `-m/2 .. m/2`. */
  function WrapSigned(v: int, m: int): int
    requires m > 0
  {
    if 2 * (v % m) >= m then v % m - m else v % m
  }

  /** The value a field has once it is stored: numbers wrap into their width. */
  function Stored(f: Field): Field {
    match f
    case UInt8(v) => UInt8(v % TWO8)
    case Int8(v) => Int8(WrapSigned(v, TWO8))
    case UInt16BE(v) => UInt16BE(v % TWO16)
    case Int16BE(v) => Int16BE(WrapSigned(v, TWO16))
    case UInt32BE(v) => UInt32BE(v % TWO32)
    case Int32BE(v) => Int32BE(WrapSigned(v, TWO32))
    case UInt32LE(v) => UInt32LE(v % TWO32)
    case BigUInt64BE(v) => BigUInt64BE(v % TWO64)
    case Raw(d) => f
  }

  predicate InRange(f: Field) {
    match f
    case UInt8(v) => 0 <= v < TWO8
    case Int8(v) => -128 <= v < 128
    case UInt16BE(v) => 0 <= v < TWO16
    case Int16BE(v) => -0x8000 <= v < 0x8000
    case UInt32BE(v) => 0 <= v < TWO32
    case Int32BE(v) => -0x8000_0000 <= v < 0x8000_0000
    case UInt32LE(v) => 0 <= v < TWO32
    case BigUInt64BE(v) => 0 <= v < TWO64
    case Raw(d) => true
  }

  lemma Powers()
    ensures Pow256(1) == TWO8 && Pow256(2) == TWO16 && Pow256(4) == TWO32 && Pow256(8) == TWO64
  {
    assert Pow256(3) == 0x100_0000;
    assert Pow256(5) == 0x100_0000_0000 && Pow256(6) == 0x1_0000_0000_0000 && Pow256(7) == 0x100_0000_0000_0000;
  }

  lemma FieldRoundTrip(f: Field)
    ensures Decoded(TypeOf(f), Encoded(f)) == Stored(f)
  {
    hide BigEndian, FromBigEndian, LittleEndian, FromLittleEndian, Pow256;
    Powers();
    match f
    case UInt8(v) => BytesRoundTrip(v, 1);
    case Int8(v) => BytesRoundTrip(v, 1);
    case UInt16BE(v) => BytesRoundTrip(v, 2);
    case Int16BE(v) => BytesRoundTrip(v, 2);
    case UInt32BE(v) => BytesRoundTrip(v, 4);
    case Int32BE(v) => BytesRoundTrip(v, 4);
    case UInt32LE(v) => BytesRoundTrip(v, 4);
    case BigUInt64BE(v) => BytesRoundTrip(v, 8);
    case Raw(d) =>
  }

  lemma WrapSignedFits(v: int, m: int)
    requires m > 0 && -m <= 2 * v < m
    ensures WrapSigned(v, m) == v
  {
    DivModUnique(v, if v < 0 then -1 else 0, if v < 0 then v + m else v, m);
  }

  lemma InRangeFieldIsStored(f: Field)
    requires InRange(f)
    ensures Stored(f) == f
  {
    match f
    case Int8(v) => WrapSignedFits(v, TWO8);
    case Int16BE(v) => WrapSignedFits(v, TWO16);
    case Int32BE(v) => WrapSignedFits(v, TWO32);
    case _ =>
  }

  // ---- Sequences of fields ----

  function TypesOf(fs: seq<Field>): (ts: seq<FieldType>)
    ensures |ts| == |fs|
  {
    if fs == [] then [] else TypesOf(fs[..|fs| - 1]) + [TypeOf(fs[|fs| - 1])]
  }

  function EncodedAll(fs: seq<Field>): seq<byte> {
    if fs == [] then [] else EncodedAll(fs[..|fs| - 1]) + Encoded(fs[|fs| - 1])
  }

  function StoredAll(fs: seq<Field>): (r: seq<Field>)
    ensures |r| == |fs|
  {
    if fs == [] then [] else StoredAll(fs[..|fs| - 1]) + [Stored(fs[|fs| - 1])]
  }

  /** Reading the given types one after another from the front; `None` as soon as too few bytes remain. */
  function DecodedAll(ts: seq<FieldType>, b: seq<byte>): Option<seq<Field>> {
    if ts == [] then Some([])
    else
      var n := ts[0].Width();
      if |b| < n then None
      else
        match DecodedAll(ts[1..], b[n..])
        case None => None
        case Some(rest) => Some([Decoded(ts[0], b[..n])] + rest)
  }

  lemma {:induction false} FieldsFromFront(fs: seq<Field>)
    requires fs != []
    ensures TypesOf(fs) == [TypeOf(fs[0])] + TypesOf(fs[1..])
    ensures EncodedAll(fs) == Encoded(fs[0]) + EncodedAll(fs[1..])
    ensures StoredAll(fs) == [Stored(fs[0])] + StoredAll(fs[1..])
  {
    hide Encoded, Stored, TypeOf;
    var last := |fs| - 1;
    if last > 0 {
      FieldsFromFront(fs[..last]);
      assert fs[..last][1..] == fs[1..][..last - 1];
      assert fs[1..][|fs[1..]| - 1] == fs[last];
    } else {
      assert fs[..0] == [] && fs[1..] == [];
      assert EncodedAll(fs) == [] + Encoded(fs[0]);
    }
  }

  /** For any sequence of typed writes, the same sequence of typed reads gives the stored values and uses up every
      byte. */
  lemma {:induction false} SequenceRoundTrip(fs: seq<Field>)
    ensures DecodedAll(TypesOf(fs), EncodedAll(fs)) == Some(StoredAll(fs))
  {
    if fs != [] {
      hide Encoded, Decoded, Stored, InRange, EncodedAll, TypesOf, StoredAll;
      FieldsFromFront(fs);
      FieldRoundTrip(fs[0]);
      SequenceRoundTrip(fs[1..]);
      var n := TypeOf(fs[0]).Width();
      assert EncodedAll(fs)[..n] == Encoded(fs[0]) && EncodedAll(fs)[n..] == EncodedAll(fs[1..]);
      assert TypesOf(fs)[1..] == TypesOf(fs[1..]);
    }
  }

  lemma {:induction false} InRangeIsStored(fs: seq<Field>)
    requires forall i :: 0 <= i < |fs| ==> InRange(fs[i])
    ensures StoredAll(fs) == fs
  {
    if fs != [] {
      InRangeIsStored(fs[..|fs| - 1]);
      InRangeFieldIsStored(fs[|fs| - 1]);
    }
  }

  // ---- The writer ----

  class BinaryWriter {
    const buf: array<byte>
    var pos: nat

    ghost predicate Valid()
      reads this
    {
      pos <= buf.Length
    }

    ghost function Contents(): seq<byte>
      requires Valid()
      reads this, buf
    {
      buf[..pos]
    }

    constructor (size: nat)
      ensures Valid() && pos == 0 && buf.Length == size && fresh(buf)
    {
      buf := new byte[size](i => 0);
      pos := 0;
    }

    /** What one write does: append, or throw a RangeError and leave everything as it was. */
    twostate predicate Appended(data: seq<byte>, ok: bool)
      requires old(Valid())
      reads this, buf
    {
      && Valid()
      && (ok <==> old(pos) + |data| <= buf.Length)
      && Contents() == old(Contents()) + (if ok then data else [])
      && buf[pos..] == old(buf[..])[pos..]
    }

    /** `DataView.set…` and `Uint8Array.set` at `at`: all of `data`, or a RangeError and nothing. */
    method SetBytes(at: int, data: seq<byte>) returns (ok: bool)
      modifies buf
      ensures ok <==> 0 <= at && at + |data| <= buf.Length
      ensures ok ==> buf[..] == old(buf[..])[..at] + data + old(buf[..])[at + |data|..]
      ensures !ok ==> buf[..] == old(buf[..])
    {
      if at < 0 || at + |data| > buf.Length {
        return false;
      }
      for i := 0 to |data|
        invariant forall j :: 0 <= j < buf.Length ==> buf[j] == if at <= j < at + i then data[j - at] else old(buf[j])
      {
        buf[at + i] := data[i];
      }
      return true;
    }

    method Put(data: seq<byte>) returns (ok: bool)
      requires Valid()
      modifies this`pos, buf
      ensures Appended(data, ok)
    {
      ok := SetBytes(pos, data);
      if ok {
        pos := pos + |data|;
      }
    }

    method WriteUInt8(value: int) returns (ok: bool)
      requires Valid()
      modifies this`pos, buf
      ensures Appended(Encoded(UInt8(value)), ok)
    {
      ok := Put(BigEndian(value, 1));
    }

    method WriteInt8(value: int) returns (ok: bool)
      requires Valid()
      modifies this`pos, buf
      ensures Appended(Encoded(Int8(value)), ok)
    {
      ok := Put(BigEndian(value, 1));
    }

    method WriteUInt16BE(value: int) returns (ok: bool)
      requires Valid()
      modifies this`pos, buf
      ensures Appended(Encoded(UInt16BE(value)), ok)
    {
      ok := Put(BigEndian(value, 2));
    }

    method WriteInt16BE(value: int) returns (ok: bool)
      requires Valid()
      modifies this`pos, buf
      ensures Appended(Encoded(Int16BE(value)), ok)
    {
      ok := Put(BigEndian(value, 2));
    }

    method WriteUInt32BE(value: int) returns (ok: bool)
      requires Valid()
      modifies this`pos, buf
      ensures Appended(Encoded(UInt32BE(value)), ok)
    {
      ok := Put(BigEndian(value, 4));
    }

    method WriteInt32BE(value: int) returns (ok: bool)
      requires Valid()
      modifies this`pos, buf
      ensures Appended(Encoded(Int32BE(value)), ok)
    {
      ok := Put(BigEndian(value, 4));
    }

    method WriteUInt32LE(value: int) returns (ok: bool)
      requires Valid()
      modifies this`pos, buf
      ensures Appended(Encoded(UInt32LE(value)), ok)
    {
      ok := Put(LittleEndian(value, 4));
    }

    method WriteBigUInt64BE(value: int) returns (ok: bool)
      requires Valid()
      modifies this`pos, buf
      ensures Appended(Encoded(BigUInt64BE(value)), ok)
    {
      ok := Put(BigEndian(value, 8));
    }

    method WriteBytes(data: seq<byte>) returns (ok: bool)
      requires Valid()
      modifies this`pos, buf
      ensures Appended(Encoded(Raw(data)), ok)
    {
      ok := Put(data);
    }

    /** Patches bytes anywhere in the buffer; the cursor stays. */
    method WriteBytesAt(offset: int, data: seq<byte>) returns (ok: bool)
      requires Valid()
      modifies buf
      ensures Valid()
      ensures ok <==> 0 <= offset && offset + |data| <= buf.Length
      ensures ok ==> buf[..] == old(buf[..])[..offset] + data + old(buf[..])[offset + |data|..]
      ensures !ok ==> buf[..] == old(buf[..])
    {
      ok := SetBytes(offset, data);
    }

    /** One typed write. */
    method Write(f: Field) returns (ok: bool)
      requires Valid()
      modifies this`pos, buf
      ensures Appended(Encoded(f), ok)
    {
      match f
      case UInt8(v) => ok := WriteUInt8(v);
      case Int8(v) => ok := WriteInt8(v);
      case UInt16BE(v) => ok := WriteUInt16BE(v);
      case Int16BE(v) => ok := WriteInt16BE(v);
      case UInt32BE(v) => ok := WriteUInt32BE(v);
      case Int32BE(v) => ok := WriteInt32BE(v);
      case UInt32LE(v) => ok := WriteUInt32LE(v);
      case BigUInt64BE(v) => ok := WriteBigUInt64BE(v);
      case Raw(d) => ok := WriteBytes(d);
    }
  }

  // ---- The reader ----

  lemma SliceOfSlice(b: seq<byte>, lo: nat, hi: nat, i: nat, j: nat)
    requires lo <= hi <= |b| && i <= j <= hi - lo
    ensures b[lo..hi][i..j] == b[lo + i..lo + j]
  {
    var s, t := b[lo..hi][i..j], b[lo + i..lo + j];
    assert |s| == |t|;
    forall k | 0 <= k < |s|
      ensures s[k] == t[k]
    {
      assert b[lo..hi][i + k] == b[lo + (i + k)];
    }
  }

  lemma SliceOfArray(a: array<byte>, lo: nat, hi: nat)
    requires lo <= hi <= a.Length
    ensures a[lo..hi] == a[..][lo..hi]
  {
  }

  class BinaryReader {
    const buffer: array<byte>
    const byteOffset: nat
    const byteLength: nat
    var pos: int

    ghost predicate Valid() {
      byteOffset + byteLength <= buffer.Length
    }

    /** The message: the part of the buffer the reader was given. */
    ghost function View(): seq<byte>
      requires Valid()
      reads buffer
    {
      buffer[byteOffset..byteOffset + byteLength]
    }

    constructor (buffer: array<byte>, byteOffset: nat, byteLength: nat, offset: int)
      requires byteOffset + byteLength <= buffer.Length
      ensures Valid() && this.buffer == buffer && this.byteOffset == byteOffset && this.byteLength == byteLength
              && pos == offset
    {
      this.buffer, this.byteOffset, this.byteLength := buffer, byteOffset, byteLength;
      pos := offset;
    }

    /** Position `at` of the reader is a byte of the message. */
    predicate InMessage(at: int) {
      0 <= at < byteLength
    }

    function Remaining(): int
      reads this
    {
      byteLength - pos
    }

    method Check(n: int) returns (ok: bool)
      ensures ok <==> 0 <= n <= Remaining()
    {
      ok := !(n < 0 || pos + n > byteLength);
    }

    /** What one typed read does: take its bytes from the message, or throw and leave the cursor alone. */
    twostate predicate Consumed(t: FieldType, new r: Option<Field>)
      requires Valid()
      reads this, buffer
    {
      && (r.Some? <==> 0 <= old(pos) && t.Width() <= old(Remaining()))
      && (r.Some? ==> pos == old(pos) + t.Width() && r.value == Decoded(t, View()[old(pos)..pos]))
      && (r == None ==> pos == old(pos))
    }

    twostate predicate ConsumedNumber(t: FieldType, new r: Option<int>)
      requires Valid() && !t.TRaw?
      reads this, buffer
    {
      Consumed(t, if r == None then None else Some(NumberField(t, r.value)))
    }

    /** The bounds check, the `DataView.get…` of `n` bytes and the move of the cursor. A negative position passes the
        check and is then a RangeError of the view. */
    method Take(n: nat) returns (r: Option<seq<byte>>)
      requires Valid()
      modifies this
      ensures r.Some? <==> 0 <= old(pos) && n <= old(Remaining())
      ensures r.Some? ==> pos == old(pos) + n && r.value == View()[old(pos)..pos]
      ensures r == None ==> pos == old(pos)
    {
      var ok := Check(n);
      if !ok || pos < 0 {
        return None;
      }
      var start := byteOffset + pos;
      SliceOfSlice(buffer[..], byteOffset, byteOffset + byteLength, pos, pos + n);
      SliceOfArray(buffer, byteOffset, byteOffset + byteLength);
      SliceOfArray(buffer, start, start + n);
      r := Some(buffer[start..start + n]);
      pos := pos + n;
    }

    method ReadUInt8() returns (r: Option<int>)
      requires Valid()
      modifies this
      ensures ConsumedNumber(TUInt8, r)
    {
      var b := Take(1);
      r := if b == None then None else Some(FromBigEndian(b.value));
    }

    method ReadInt8() returns (r: Option<int>)
      requires Valid()
      modifies this
      ensures ConsumedNumber(TInt8, r)
    {
      var b := Take(1);
      r := if b == None then None else Some(Signed(FromBigEndian(b.value), 1));
    }

    method ReadUInt16BE() returns (r: Option<int>)
      requires Valid()
      modifies this
      ensures ConsumedNumber(TUInt16BE, r)
    {
      var b := Take(2);
      r := if b == None then None else Some(FromBigEndian(b.value));
    }

    method ReadInt16BE() returns (r: Option<int>)
      requires Valid()
      modifies this
      ensures ConsumedNumber(TInt16BE, r)
    {
      var b := Take(2);
      r := if b == None then None else Some(Signed(FromBigEndian(b.value), 2));
    }

    method ReadUInt32BE() returns (r: Option<int>)
      requires Valid()
      modifies this
      ensures ConsumedNumber(TUInt32BE, r)
    {
      var b := Take(4);
      r := if b == None then None else Some(FromBigEndian(b.value));
    }

    method ReadInt32BE() returns (r: Option<int>)
      requires Valid()
      modifies this
      ensures ConsumedNumber(TInt32BE, r)
    {
      var b := Take(4);
      r := if b == None then None else Some(Signed(FromBigEndian(b.value), 4));
    }

    method ReadUInt32LE() returns (r: Option<int>)
      requires Valid()
      modifies this
      ensures ConsumedNumber(TUInt32LE, r)
    {
      var b := Take(4);
      r := if b == None then None else Some(FromLittleEndian(b.value));
    }

    method ReadBigUInt64BE() returns (r: Option<int>)
      requires Valid()
      modifies this
      ensures ConsumedNumber(TBigUInt64BE, r)
    {
      var b := Take(8);
      r := if b == None then None else Some(FromBigEndian(b.value));
    }

    /** Hands out `length` bytes of the underlying buffer. `Uint8Array` only refuses to start before that
        buffer, so a reader opened at a negative offset can reach bytes in front of its message. */
    method ReadBytes(length: int) returns (r: Option<seq<byte>>)
      requires Valid()
      modifies this
      ensures r.Some? <==> 0 <= length <= old(Remaining()) && byteOffset + old(pos) >= 0
      ensures r.Some? ==> pos == old(pos) + length && r.value == buffer[byteOffset + old(pos)..byteOffset + pos]
      ensures r == None ==> pos == old(pos)
      // From a non-negative position it is an ordinary read of the message.
      ensures old(pos) >= 0 && length >= 0 ==>
                (r.Some? <==> length <= old(Remaining())) && (r.Some? ==> r.value == View()[old(pos)..pos])
      // It hands out a byte from outside the message exactly when it starts in front of it and is not empty.
      ensures r.Some? ==> ((exists at :: old(pos) <= at < pos && !InMessage(at)) <==> old(pos) < 0 && length > 0)
    {
      var ok := Check(length);
      if !ok || byteOffset + pos < 0 {
        return None;
      }
      var start := byteOffset + pos;
      if pos >= 0 {
        SliceOfSlice(buffer[..], byteOffset, byteOffset + byteLength, pos, pos + length);
        SliceOfArray(buffer, byteOffset, byteOffset + byteLength);
        SliceOfArray(buffer, start, start + length);
      } else if length > 0 {
        assert !InMessage(pos);
      }
      r := Some(buffer[start..start + length]);
      pos := pos + length;
    }

    method ReadNumber(t: FieldType) returns (r: Option<int>)
      requires Valid() && !t.TRaw?
      modifies this
      ensures ConsumedNumber(t, r)
    {
      match t
      case TUInt8 => r := ReadUInt8();
      case TInt8 => r := ReadInt8();
      case TUInt16BE => r := ReadUInt16BE();
      case TInt16BE => r := ReadInt16BE();
      case TUInt32BE => r := ReadUInt32BE();
      case TInt32BE => r := ReadInt32BE();
      case TUInt32LE => r := ReadUInt32LE();
      case TBigUInt64BE => r := ReadBigUInt64BE();
    }

    /** One typed read, from a non-negative position. */
    method Read(t: FieldType) returns (r: Option<Field>)
      requires Valid() && pos >= 0
      modifies this
      ensures Consumed(t, r)
    {
      match t
      case TRaw(n) =>
        var b := ReadBytes(n);
        r := if b == None then None else Some(Raw(b.value));
      case _ =>
        var v := ReadNumber(t);
        r := if v == None then None else Some(NumberField(t, v.value));
    }
  }

  /** A reader opened one byte before its message hands that byte out, although the message does not hold it. */
  method ReadInFrontOfTheMessage() returns (reader: BinaryReader, r: Option<seq<byte>>)
    ensures reader.Valid() && r == Some([7]) && 7 !in reader.View()
  {
    var buffer := new byte[3];
    buffer[0], buffer[1], buffer[2] := 7, 1, 2;
    reader := new BinaryReader(buffer, 1, 2, -1);
    assert reader.View() == buffer[1..3] == [1, 2];
    r := reader.ReadBytes(1);
    assert buffer[0..1] == [7];
  }

  // ---- Writing and reading a whole message ----

  lemma NothingEncoded(fs: seq<Field>)
    ensures EncodedAll(fs[..0]) == []
  {
  }

  lemma PrefixEncoded(fs: seq<Field>, i: nat)
    requires i < |fs|
    ensures EncodedAll(fs[..i + 1]) == EncodedAll(fs[..i]) + Encoded(fs[i])
    ensures |EncodedAll(fs[..i + 1])| <= |EncodedAll(fs)|
    decreases |fs| - i
  {
    hide Encoded;
    assert fs[..i + 1][..i] == fs[..i];
    if i + 1 < |fs| {
      PrefixEncoded(fs, i + 1);
    } else {
      assert fs[..i + 1] == fs;
    }
  }

  /** Typed writes one after another, up to the first that throws. */
  method WriteAll(w: BinaryWriter, fs: seq<Field>) returns (ok: bool)
    requires w.Valid()
    modifies w`pos, w.buf
    ensures w.Valid()
    ensures ok <==> old(w.pos) + |EncodedAll(fs)| <= w.buf.Length
    ensures ok ==> w.Contents() == old(w.Contents()) + EncodedAll(fs)
  {
    hide Encoded, EncodedAll;
    var start := w.pos;
    NothingEncoded(fs);
    for i := 0 to |fs|
      invariant w.Valid() && w.pos == start + |EncodedAll(fs[..i])|
      invariant w.Contents() == old(w.Contents()) + EncodedAll(fs[..i])
    {
      ghost var before := w.Contents();
      ok := w.Write(fs[i]);
      PrefixEncoded(fs, i);
      if !ok {
        return;
      }
      assert before + Encoded(fs[i]) == old(w.Contents()) + (EncodedAll(fs[..i]) + Encoded(fs[i]));
    }
    assert fs[..|fs|] == fs;
    return true;
  }

  function TotalWidth(ts: seq<FieldType>): nat {
    if ts == [] then 0 else ts[0].Width() + TotalWidth(ts[1..])
  }

  /** One field off the front. */
  lemma DecodedStep(ts: seq<FieldType>, view: seq<byte>, at: nat)
    requires ts != [] && at <= |view|
    ensures var n := ts[0].Width();
            DecodedAll(ts, view[at..]) ==
            if |view| - at < n then None
            else
              match DecodedAll(ts[1..], view[at + n..])
              case None => None
              case Some(rest) => Some([Decoded(ts[0], view[at..at + n])] + rest)
  {
    hide Decoded;
    var n := ts[0].Width();
    if |view| - at >= n {
      assert view[at..][..n] == view[at..at + n] && view[at..][n..] == view[at + n..];
    }
  }

  /** Typed reads one after another, up to the first that throws. */
  method ReadAll(r: BinaryReader, ts: seq<FieldType>) returns (fs: Option<seq<Field>>)
    requires r.Valid() && 0 <= r.pos <= r.byteLength
    modifies r
    ensures fs == DecodedAll(ts, r.View()[old(r.pos)..])
    ensures fs.Some? ==> r.pos == old(r.pos) + TotalWidth(ts)
    ensures old(r.pos) <= r.pos <= r.byteLength
  {
    if ts == [] {
      return Some([]);
    }
    hide Decoded;
    DecodedStep(ts, r.View(), r.pos);
    var f := r.Read(ts[0]);
    if f == None {
      return None;
    }
    var rest := ReadAll(r, ts[1..]);
    return if rest == None then None else Some([f.value] + rest.value);
  }

  lemma {:induction false} EncodedWidth(fs: seq<Field>)
    ensures |EncodedAll(fs)| == TotalWidth(TypesOf(fs))
  {
    if fs != [] {
      FieldsFromFront(fs);
      EncodedWidth(fs[1..]);
      assert TypesOf(fs)[1..] == TypesOf(fs[1..]);
    }
  }

  /** The classes together: a message that fits its writer is read back, field by field, to its last byte. */
  method RoundTrip(fs: seq<Field>, size: nat) returns (out: Option<seq<Field>>, remaining: int)
    ensures |EncodedAll(fs)| <= size ==> out == Some(StoredAll(fs)) && remaining == 0
    ensures |EncodedAll(fs)| > size ==> out == None
  {
    var w := new BinaryWriter(size);
    var ok := WriteAll(w, fs);
    if !ok {
      return None, 0;
    }
    var r := new BinaryReader(w.buf, 0, w.pos, 0);
    assert r.View()[0..] == EncodedAll(fs);
    SequenceRoundTrip(fs);
    EncodedWidth(fs);
    out := ReadAll(r, TypesOf(fs));
    remaining := r.Remaining();
  }
}
