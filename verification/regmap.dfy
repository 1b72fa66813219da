/**
 * `RegMap`: a register bank held as the `ByteArray` that `process_table`
 * produced, read through `ByteBuffer`'s absolute big-endian getters and
 * masked back to unsigned values.
 */
module RegMaps {
  import opened Results
  import opened Bits

  /** A Kotlin `Byte`: signed, two's complement, eight bits. */
  type SByte = x: int | -128 <= x < 128

  /** Kotlin `Int.toByte()`: keeps the low eight bits, read back as signed. */
  function ToByte(v: int): (b: SByte)
    ensures b % 256 == v % 256
    ensures 0 <= v < 128 ==> b == v
  {
    var low := v % 256;
    if low < 128 then low else low - 256
  }

  /** The `IndexOutOfBoundsException` that `ByteBuffer`'s absolute getters throw. */
  datatype ReadError = OutOfRange(offset: int)

  datatype RegMap = RegMap(data: seq<SByte>) {

    /** `ByteBuffer.get(offset).toInt() and 0xFF` */
    function Read8(offset: int): (r: Result<int, ReadError>)
      ensures r.Ok? <==> 0 <= offset < |data|
      ensures r.Ok? ==> 0 <= r.value < 0x100
      ensures r.Err? ==> r.error == OutOfRange(offset)
    {
      if 0 <= offset < |data| then Ok(BitAnd(data[offset] as int, 0xFF))
      else Err(OutOfRange(offset))
    }

    /**
     * `ByteBuffer.getShort(offset)`: the first byte, sign-extended, shifted
     * into the high half, `or`-ed with the second byte's unsigned value. The
     * two parts share no bit, so the `or` is a sum.
     */
    function GetShort(offset: int): (s: int)
      requires 0 <= offset && offset + 2 <= |data|
      ensures -0x8000 <= s < 0x8000
    {
      (data[offset] as int) * 0x100 + BitAnd(data[offset + 1] as int, 0xFF)
    }

    /** `ByteBuffer.getInt(offset)`, assembled from four bytes the same way. */
    function GetInt(offset: int): (i: int)
      requires 0 <= offset && offset + 4 <= |data|
      ensures -0x8000_0000 <= i < 0x8000_0000
    {
      (data[offset] as int) * 0x100_0000
        + BitAnd(data[offset + 1] as int, 0xFF) * 0x1_0000
        + BitAnd(data[offset + 2] as int, 0xFF) * 0x100
        + BitAnd(data[offset + 3] as int, 0xFF)
    }

    /** `ByteBuffer.getShort(offset).toInt() and 0xFFFF` */
    function Read16(offset: int): (r: Result<int, ReadError>)
      ensures r.Ok? <==> 0 <= offset && offset + 2 <= |data|
      ensures r.Ok? ==> 0 <= r.value < 0x1_0000
      ensures r.Err? ==> r.error == OutOfRange(offset)
    {
      if 0 <= offset && offset + 2 <= |data| then Ok(BitAnd(GetShort(offset), 0xFFFF))
      else Err(OutOfRange(offset))
    }

    /** `ByteBuffer.getInt(offset).toLong() and 0xFFFFFFFF` */
    function Read32(offset: int): (r: Result<int, ReadError>)
      ensures r.Ok? <==> 0 <= offset && offset + 4 <= |data|
      ensures r.Ok? ==> 0 <= r.value < 0x1_0000_0000
      ensures r.Err? ==> r.error == OutOfRange(offset)
    {
      if 0 <= offset && offset + 4 <= |data| then Ok(BitAnd(GetInt(offset), 0xFFFF_FFFF))
      else Err(OutOfRange(offset))
    }
  }

  /** Unsigned value of a stored byte. */
  function Unsigned(b: SByte): (u: nat)
    ensures u < 256
  {
    (b as int) % 256
  }

  /** `toByte()` followed by the unsigned reading gives back any byte value. */
  lemma UnsignedToByte(v: int)
    requires 0 <= v < 0x100
    ensures Unsigned(ToByte(v)) == v
  {
    var b := ToByte(v);
    assert (b as int) % 256 == v % 256;
  }

  /** `read8` is the stored byte reinterpreted as unsigned, so it is always in 0..255. */
  lemma Read8Unsigned(m: RegMap, offset: int)
    requires 0 <= offset < |m.data|
    ensures m.Read8(offset) == Ok(Unsigned(m.data[offset]))
    ensures 0 <= m.Read8(offset).value < 0x100
  {
    MaskFF(m.data[offset] as int);
  }

  /** A sign-extended high byte above an unsigned low byte, reduced modulo 2^16. */
  lemma SignedJoin16(hi: int, lo: int)
    requires -0x80 <= hi < 0x80 && 0 <= lo < 0x100
    ensures (hi * 0x100 + lo) % 0x1_0000 == 0x100 * (hi % 0x100) + lo
  {
    var joined := hi * 0x100 + lo;
    if hi < 0 {
      DivModUnique(hi, 0x100, -1, hi + 0x100);
      DivModUnique(joined, 0x1_0000, -1, (hi + 0x100) * 0x100 + lo);
    } else {
      DivModUnique(hi, 0x100, 0, hi);
      DivModUnique(joined, 0x1_0000, 0, joined);
    }
  }

  /** A sign-extended high byte above an unsigned 24-bit part, reduced modulo 2^32. */
  lemma SignedJoin32(hi: int, lo: int)
    requires -0x80 <= hi < 0x80 && 0 <= lo < 0x100_0000
    ensures (hi * 0x100_0000 + lo) % 0x1_0000_0000 == 0x100_0000 * (hi % 0x100) + lo
  {
    var joined := hi * 0x100_0000 + lo;
    if hi < 0 {
      DivModUnique(hi, 0x100, -1, hi + 0x100);
      DivModUnique(joined, 0x1_0000_0000, -1, (hi + 0x100) * 0x100_0000 + lo);
    } else {
      DivModUnique(hi, 0x100, 0, hi);
      DivModUnique(joined, 0x1_0000_0000, 0, joined);
    }
  }

  /** `read16` composes two `read8`s big-endian and is always in 0..65535. */
  lemma Read16BigEndian(m: RegMap, offset: int)
    requires 0 <= offset && offset + 2 <= |m.data|
    ensures m.Read16(offset).Ok? && m.Read8(offset).Ok? && m.Read8(offset + 1).Ok?
    ensures m.Read16(offset).value == 0x100 * m.Read8(offset).value + m.Read8(offset + 1).value
    ensures 0 <= m.Read16(offset).value < 0x1_0000
  {
    var hi: int, lo: int := m.data[offset], Unsigned(m.data[offset + 1]);
    var short := m.GetShort(offset);
    Read8Unsigned(m, offset);
    Read8Unsigned(m, offset + 1);
    assert short == hi * 0x100 + lo;
    MaskFFFF(short);
    SignedJoin16(hi, lo);
  }

  /** `read32` composes two `read16`s big-endian and is always in 0..2^32-1. */
  lemma Read32BigEndian(m: RegMap, offset: int)
    requires 0 <= offset && offset + 4 <= |m.data|
    ensures m.Read32(offset).Ok? && m.Read16(offset).Ok? && m.Read16(offset + 2).Ok?
    ensures m.Read32(offset).value == 0x1_0000 * m.Read16(offset).value + m.Read16(offset + 2).value
    ensures 0 <= m.Read32(offset).value < 0x1_0000_0000
  {
    var hi: int := m.data[offset];
    var u0, u1, u2, u3 := Unsigned(m.data[offset]), Unsigned(m.data[offset + 1]),
      Unsigned(m.data[offset + 2]), Unsigned(m.data[offset + 3]);
    Read16BigEndian(m, offset);
    Read16BigEndian(m, offset + 2);
    Read8Unsigned(m, offset);
    Read8Unsigned(m, offset + 1);
    Read8Unsigned(m, offset + 2);
    Read8Unsigned(m, offset + 3);
    assert m.Read16(offset).value == 0x100 * u0 + u1;
    assert m.Read16(offset + 2).value == 0x100 * u2 + u3;
    var rest := u1 * 0x1_0000 + u2 * 0x100 + u3;
    var int32 := m.GetInt(offset);
    assert int32 == hi * 0x100_0000 + rest;
    MaskFFFFFFFF(int32);
    SignedJoin32(hi, rest);
    assert u0 == hi % 0x100;
  }

  /** Every read of a bank with no bytes fails. */
  lemma EmptyBankReadsFail(offset: int)
    ensures RegMap([]).Read8(offset) == Err(OutOfRange(offset))
    ensures RegMap([]).Read16(offset) == Err(OutOfRange(offset))
    ensures RegMap([]).Read32(offset) == Err(OutOfRange(offset))
  {
  }
}
