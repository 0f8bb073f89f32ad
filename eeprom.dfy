/** The description of a target EEPROM that the host-side programmer keeps
    (software/eeprog/EEPROM.cs): how it is connected, its page size, its
    total size and the number of address bytes it takes, each a power-of-two
    exponent or count checked by its setter, and the 16-bit ID that packs
    them for the programmer firmware. */
module EepromDevice {
  import opened Numerals
  import opened Results

  datatype ConnectionType = SPI | I2C

  const INVALID_PAGE: string := "Invalid page size."
  const INVALID_CHIP: string := "Invalid chip size."
  const INVALID_ADDRESS: string := "Invalid address size"

  predicate PageBitsOk(value: int) { 1 <= value <= 8 }
  predicate SizeBitsOk(value: int) { 1 <= value <= 32 }
  predicate AddressBytesOk(value: int) { 1 <= value <= 4 }

  /** 2^k by doubling. */
  function TwoTo(k: nat): (r: nat)
    ensures r >= 1
  {
    if k == 0 then 1 else 2 * TwoTo(k - 1)
  }

  lemma {:induction false} TwoToMonotone(m: nat, n: nat)
    requires m <= n
    ensures TwoTo(m) <= TwoTo(n)
  {
    if m < n {
      TwoToMonotone(m, n - 1);
    }
  }

  lemma {:induction false} TwoToIsPow(k: nat)
    ensures TwoTo(k) == Pow(2, k)
  {
    if k > 0 {
      TwoToIsPow(k - 1);
    }
  }

  /** `(UInt16)(1 << bits)`: an int shift uses the count modulo 32, and the
      cast keeps the low 16 bits (an int result of 2^31 wraps to a negative
      number, whose low 16 bits are zero as well). */
  function PageSizeOf(bits: int): (r: u16)
    ensures bits % 32 < 16 ==> r as int == Pow(2, bits % 32)
    ensures bits % 32 >= 16 ==> r == 0
  {
    LowSixteen(bits % 32);
    (TwoTo(bits % 32) % 0x1_0000) as u16
  }

  /** The low 16 bits of 2^k: 2^k itself below bit 16, nothing from there
      up. */
  lemma LowSixteen(k: nat)
    ensures k < 16 ==> TwoTo(k) % 0x1_0000 == TwoTo(k) == Pow(2, k)
    ensures k >= 16 ==> TwoTo(k) % 0x1_0000 == 0
  {
    assert TwoTo(8) == 0x100;
    assert TwoTo(16) == 0x1_0000;
    if k < 16 {
      TwoToIsPow(k);
      TwoToMonotone(k, 15);
    } else {
      SixteenDivides(k);
    }
  }

  lemma {:induction false} SixteenDivides(k: nat)
    requires k >= 16
    ensures TwoTo(k) % 0x1_0000 == 0
  {
    if k == 16 {
      assert TwoTo(8) == 0x100;
      assert TwoTo(16) == 0x1_0000;
    } else {
      SixteenDivides(k - 1);
      var q := TwoTo(k - 1) / 0x1_0000;
      assert TwoTo(k - 1) == 0x1_0000 * q;
      assert TwoTo(k) == 0x1_0000 * (2 * q);
    }
  }

  /** `(UInt32)1 << bits`: a uint shift also uses the count modulo 32, so
      2^(bits mod 32) always fits. */
  function SizeOf(bits: int): (r: u32)
    ensures r as int == Pow(2, bits % 32)
  {
    TwoToIsPow(bits % 32);
    TwoToFits(bits % 32);
    TwoTo(bits % 32) as u32
  }

  /** A shift count below 32 is used as it is. */
  lemma CountBelowThirtyTwo(bits: int)
    ensures 0 <= bits < 32 ==> bits % 32 == bits
    ensures bits == 32 ==> bits % 32 == 0
  {
    if 0 <= bits < 32 {
      DivisionUnique(bits, 32, 0, bits);
    } else if bits == 32 {
      DivisionUnique(bits, 32, 1, 0);
    }
  }

  lemma TwoToFits(k: nat)
    requires k < 32
    ensures TwoTo(k) < 0x1_0000_0000
  {
    TwoToMonotone(k, 31);
    TwoToThirtyOne();
  }

  lemma TwoToThirtyOne()
    ensures TwoTo(31) == 0x8000_0000
  {
    assert TwoTo(8) == 0x100;
    assert TwoTo(16) == 0x1_0000;
    assert TwoTo(24) == 0x100_0000;
  }

  /** `(Size / 1024).ToString() + "K"`: whole kilobytes in decimal. */
  function SizeInKOf(bits: int): (s: string)
    ensures |s| >= 2 && s[|s| - 1] == 'K'
    ensures AllDecimal(s[..|s| - 1]) && ParseDecimal(s[..|s| - 1]) == SizeOf(bits) as nat / 1024
  {
    DecimalRoundTrip(SizeOf(bits) as nat / 1024, 0);
    var s := Decimal(SizeOf(bits) as nat / 1024) + "K";
    assert s[..|s| - 1] == Decimal(SizeOf(bits) as nat / 1024);
    s
  }

  // ---------------------------------------------------------------------
  // The ID word
  // ---------------------------------------------------------------------

  /** A small count as a 16-bit word, built by counting up. */
  function Small(n: nat): (w: bv16)
    requires n < 32
    ensures w as int == n
  {
    if n == 0 then 0 else Small(n - 1) + 1
  }

  /** The ID word's fields, as the programmer firmware reads them back. */
  datatype IdFields = IdFields(connection: ConnectionType, pageBits: int, sizeBits: int, addressBytes: int)

  /** Reads the fields back out of an ID word: bit 15 the connection, bits
      14-12 the page bits less one, bits 11-7 the size bits less one and
      bits 6-4 the address byte count. */
  function DecodeId(id: bv16): IdFields
  {
    IdFields(if id & 0x8000 != 0 then I2C else SPI,
             ((id >> 12) & 0x7) as int + 1,
             ((id >> 7) & 0x1F) as int + 1,
             ((id >> 4) & 0x7) as int)
  }

  /** Disjoint fields OR-ed into a word come back out of it. */
  lemma PackedFields(top: bv16, page: bv16, size: bv16, addr: bv16)
    requires top == 0 || top == 0x8000
    requires page < 8 && size < 32 && addr < 8
    ensures var id := top | (page << 12) | (size << 7) | (addr << 4);
            && (id & 0x8000 != 0) == (top == 0x8000)
            && (id >> 12) & 0x7 == page
            && (id >> 7) & 0x1F == size
            && (id >> 4) & 0x7 == addr
            && id & 0xF == 0
  {
  }

  class Eeprom {
    var connection: ConnectionType
    var pageBits: int
    var sizeBits: int
    var addressBytes: int

    /** Every field in range, as the setters leave them. */
    predicate Valid()
      reads this
    {
      PageBitsOk(pageBits) && SizeBitsOk(sizeBits) && AddressBytesOk(addressBytes)
    }

    /** The object as the C# constructor's body finds it: the connection
        assigned, the three counts still at their default of 0. */
    constructor Defaults(connection: ConnectionType)
      ensures this.connection == connection
      ensures pageBits == 0 && sizeBits == 0 && addressBytes == 0
    {
      this.connection := connection;
      pageBits, sizeBits, addressBytes := 0, 0, 0;
    }

    /** The EEPROM constructor: the Connection, PageBits, SizeBits and
        AddressBytes setters in that order, the first rejected value
        failing the construction with its message. */
    static method New(connection: ConnectionType, pageBits: int, sizeBits: int, addressBytes: int)
      returns (r: Result<Eeprom, string>)
      ensures !PageBitsOk(pageBits) ==> r == Failure(INVALID_PAGE)
      ensures PageBitsOk(pageBits) && !SizeBitsOk(sizeBits) ==> r == Failure(INVALID_CHIP)
      ensures PageBitsOk(pageBits) && SizeBitsOk(sizeBits) && !AddressBytesOk(addressBytes) ==>
                r == Failure(INVALID_ADDRESS)
      ensures r.Success? <==> PageBitsOk(pageBits) && SizeBitsOk(sizeBits) && AddressBytesOk(addressBytes)
      ensures r.Success? ==> fresh(r.value) && r.value.Valid()
      ensures r.Success? ==> r.value.connection == connection && r.value.pageBits == pageBits &&
                             r.value.sizeBits == sizeBits && r.value.addressBytes == addressBytes
    {
      var e := new Eeprom.Defaults(connection);
      var o := e.SetPageBits(pageBits);
      if o.Fail? {
        return Failure(o.error);
      }
      o := e.SetSizeBits(sizeBits);
      if o.Fail? {
        return Failure(o.error);
      }
      o := e.SetAddressBytes(addressBytes);
      if o.Fail? {
        return Failure(o.error);
      }
      r := Success(e);
    }

    method SetConnection(value: ConnectionType)
      modifies this
      ensures connection == value
      ensures pageBits == old(pageBits) && sizeBits == old(sizeBits) && addressBytes == old(addressBytes)
    {
      connection := value;
    }

    /** The PageBits setter: 1 to 8, or "Invalid page size." with nothing
        changed. */
    method SetPageBits(value: int) returns (r: Outcome<string>)
      modifies this
      ensures r == if PageBitsOk(value) then Pass else Fail(INVALID_PAGE)
      ensures pageBits == if r.Pass? then value else old(pageBits)
      ensures connection == old(connection) && sizeBits == old(sizeBits) && addressBytes == old(addressBytes)
      ensures old(Valid()) ==> Valid()
    {
      if value < 1 || value > 8 {
        return Fail(INVALID_PAGE);
      }
      pageBits := value;
      r := Pass;
    }

    /** The SizeBits setter: 1 to 32, or "Invalid chip size." with nothing
        changed. */
    method SetSizeBits(value: int) returns (r: Outcome<string>)
      modifies this
      ensures r == if SizeBitsOk(value) then Pass else Fail(INVALID_CHIP)
      ensures sizeBits == if r.Pass? then value else old(sizeBits)
      ensures connection == old(connection) && pageBits == old(pageBits) && addressBytes == old(addressBytes)
      ensures old(Valid()) ==> Valid()
    {
      if value < 1 || value > 32 {
        return Fail(INVALID_CHIP);
      }
      sizeBits := value;
      r := Pass;
    }

    /** The AddressBytes setter: 1 to 4, or "Invalid address size" with
        nothing changed. */
    method SetAddressBytes(value: int) returns (r: Outcome<string>)
      modifies this
      ensures r == if AddressBytesOk(value) then Pass else Fail(INVALID_ADDRESS)
      ensures addressBytes == if r.Pass? then value else old(addressBytes)
      ensures connection == old(connection) && pageBits == old(pageBits) && sizeBits == old(sizeBits)
      ensures old(Valid()) ==> Valid()
    {
      if value < 1 || value > 4 {
        return Fail(INVALID_ADDRESS);
      }
      addressBytes := value;
      r := Pass;
    }

    /** The PageSize getter: 2^PageBits bytes. */
    function PageSize(): (r: u16)
      reads this
      ensures Valid() ==> r as int == Pow(2, pageBits)
    {
      CountBelowThirtyTwo(pageBits);
      PageSizeOf(pageBits)
    }

    /** The Size getter: 2^SizeBits bytes, except that 32 size bits give 1. */
    function Size(): (r: u32)
      reads this
      ensures Valid() && sizeBits < 32 ==> r as int == Pow(2, sizeBits)
      ensures sizeBits == 32 ==> r == 1
    {
      CountBelowThirtyTwo(sizeBits);
      SizeOf(sizeBits)
    }

    /** The SizeInK getter: the whole kilobytes of Size in decimal, then
        'K'. */
    function SizeInK(): (s: string)
      reads this
      ensures |s| >= 2 && s[|s| - 1] == 'K'
      ensures AllDecimal(s[..|s| - 1]) && ParseDecimal(s[..|s| - 1]) == Size() as nat / 1024
    {
      SizeInKOf(sizeBits)
    }

    /** The ID getter: 0x8000 for I2C, then the page bits less one, the size
        bits less one and the address byte count OR-ed in at bits 12, 7 and
        4. In range, each shifted count fits 16 bits, so the casts lose
        nothing. */
    function Id(): (id: bv16)
      reads this
      requires Valid()
      ensures DecodeId(id) == IdFields(connection, pageBits, sizeBits, addressBytes)
      ensures id & 0xF == 0
    {
      var top: bv16 := if connection == I2C then 0x8000 else 0x0000;
      SmallBelow(pageBits - 1, 8);
      SmallBelow(sizeBits - 1, 32);
      SmallBelow(addressBytes, 8);
      DecodePacked(top, Small(pageBits - 1), Small(sizeBits - 1), Small(addressBytes),
                   connection, pageBits, sizeBits, addressBytes);
      Pack(top, Small(pageBits - 1), Small(sizeBits - 1), Small(addressBytes))
    }
  }

  /** A page holds 2^PageBits bytes, between 2 and 256. */
  lemma PageSizeRange(bits: int)
    requires PageBitsOk(bits)
    ensures PageSizeOf(bits) as int == Pow(2, bits)
    ensures 2 <= PageSizeOf(bits) <= 256
  {
    TwoToIsPow(bits);
    TwoToMonotone(1, bits);
    TwoToMonotone(bits, 8);
    assert TwoTo(8) == 256;
    CountBelowThirtyTwo(bits);
    DivisionUnique(TwoTo(bits), 0x1_0000, 0, TwoTo(bits));
  }

  /** The chip holds 2^SizeBits bytes up to 31 bits; at 32 the shift count
      wraps to 0 and Size is 1, and SizeInK reads "0K". */
  lemma SizeWraps(bits: int)
    requires SizeBitsOk(bits)
    ensures bits < 32 ==> SizeOf(bits) as int == Pow(2, bits)
    ensures bits == 32 ==> SizeOf(bits) == 1 && SizeInKOf(bits) == "0K"
  {
    CountBelowThirtyTwo(bits);
    if bits == 32 {
      KilobytesOfOne();
    }
  }

  lemma KilobytesOfOne()
    ensures SizeInKOf(32) == "0K"
  {
    assert SizeOf(32) as nat / 1024 == 0;
    assert Decimal(0) == "0";
  }

  /** The word with the connection flag and the three shifted counts OR-ed
      in. */
  function Pack(top: bv16, page: bv16, size: bv16, addr: bv16): bv16
  {
    top | (page << 12) | (size << 7) | (addr << 4)
  }

  /** Disjoint fields OR-ed into an ID word decode to the values they
      hold. */
  lemma DecodePacked(top: bv16, page: bv16, size: bv16, addr: bv16,
                     c: ConnectionType, p: int, s: int, a: int)
    requires top == if c == I2C then 0x8000 else 0x0000
    requires page < 8 && size < 32 && addr < 8
    requires page as int == p - 1 && size as int == s - 1 && addr as int == a
    ensures DecodeId(Pack(top, page, size, addr)) == IdFields(c, p, s, a)
    ensures Pack(top, page, size, addr) & 0xF == 0
  {
    PackedFields(top, page, size, addr);
  }

  lemma SmallBelow(n: nat, bound: bv16)
    requires n < bound as int && n < 32
    ensures Small(n) < bound
  {
  }

  /** Different valid descriptors have different IDs. */
  lemma IdInjective(e: Eeprom, f: Eeprom)
    requires e.Valid() && f.Valid() && e.Id() == f.Id()
    ensures e.connection == f.connection && e.pageBits == f.pageBits
    ensures e.sizeBits == f.sizeBits && e.addressBytes == f.addressBytes
  {
  }
}
