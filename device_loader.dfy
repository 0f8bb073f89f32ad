/** The line codec of the host-side loader (software/eeprog/DeviceLoader.cs):
    hex digits and hex strings, the write line the loader sends (a six-digit
    address, the data bytes and a 16-bit additive checksum), the checksum
    test on data read back, and the classification of the programmer's
    '+'/'-' responses. Exceptions become a Fault in a Result or Outcome. */
module DeviceLoader {
  import opened Numerals
  import opened Results

  /** The exceptions the helpers raise. */
  datatype Fault =
    | General(message: string)   // System.Exception
    | Protocol(message: string)  // ProtocolException
    | IndexOutOfRange            // an index before the start or past the end

  const ODD_DIGITS: string := "The binary key cannot have an odd number of digits"
  const NO_MESSAGE: string := "No message provided."
  const SHORT_DATA: string := "Insufficient data received."

  /** A response with its text after the status character and, for a
      success, the bytes that text decodes to (None where Data stays
      null). */
  datatype Response = Response(message: string, data: Option<seq<u8>>)

  // ---------------------------------------------------------------------
  // Hex digits
  // ---------------------------------------------------------------------

  /** GetHexVal: the character code less 48 below ':', less 55 below 'a' and
      less 87 from 'a' on. It checks nothing, so it is the digit's value
      exactly when the character is a hex digit of either case. */
  function GetHexVal(hex: char): (v: int)
    ensures IsHexDigit(hex) ==> v == HexValue(hex)
  {
    var val := hex as int;
    val - (if val < 58 then 48 else if val < 97 then 55 else 87)
  }

  /** Characters that are not hex digits are not rejected: ':' reads as 3,
      'G' and 'g' both as 16. */
  lemma GetHexValUnchecked()
    ensures !IsHexDigit(':') && GetHexVal(':') == 3
    ensures !IsHexDigit('G') && GetHexVal('G') == 16 && GetHexVal('g') == 16
  {
  }

  /** The lower-case digit of a value below 16 is read back as that value,
      and a lower-case digit is the digit of its value. */
  lemma HexDigitValue(c: char)
    requires IsHexDigit(c) && !('A' <= c <= 'F')
    ensures HexDigit(HexValue(c)) == c
  {
  }

  // ---------------------------------------------------------------------
  // StringToByteArray
  // ---------------------------------------------------------------------

  /** The byte StringToByteArray stores for a pair of digits:
      `(byte)((GetHexVal(hi) << 4) + GetHexVal(lo))`. The shift cannot
      overflow an int, and the unchecked cast keeps the low eight bits. */
  function ByteOfDigits(hi: char, lo: char): (b: u8)
    ensures IsHexDigit(hi) && IsHexDigit(lo) ==> b as int == 16 * HexValue(hi) + HexValue(lo)
  {
    ((GetHexVal(hi) * 16 + GetHexVal(lo)) % 0x100) as u8
  }

  /** The bytes of the digit pairs of a text, first pair first; a trailing
      odd digit contributes nothing. */
  function Pairs(hex: string): (bytes: seq<u8>)
    ensures |bytes| == |hex| / 2
    decreases |hex|
  {
    if |hex| < 2 then [] else [ByteOfDigits(hex[0], hex[1])] + Pairs(hex[2..])
  }

  lemma {:induction false} PairsAt(hex: string, i: nat)
    requires i < |hex| / 2
    ensures Pairs(hex)[i] == ByteOfDigits(hex[2 * i], hex[2 * i + 1])
    decreases |hex|
  {
    if i > 0 {
      PairsAt(hex[2..], i - 1);
      assert hex[2..][2 * (i - 1)] == hex[2 * i];
      assert hex[2..][2 * (i - 1) + 1] == hex[2 * i + 1];
    }
  }

  /** What StringToByteArray returns or throws for a text. */
  function DecodeHex(hex: string): (r: Result<seq<u8>, Fault>)
    ensures r.Failure? <==> |hex| % 2 == 1
    ensures r.Failure? ==> r.error == General(ODD_DIGITS)
    ensures r.Success? ==> |r.value| == |hex| / 2
  {
    if |hex| % 2 == 1 then Failure(General(ODD_DIGITS)) else Success(Pairs(hex))
  }

  /** StringToByteArray: an odd number of digits is rejected; otherwise
      byte i is made from digits 2i and 2i + 1. */
  method StringToByteArray(hex: string) returns (r: Result<seq<u8>, Fault>)
    ensures r == DecodeHex(hex)
    ensures r.Failure? <==> |hex| % 2 == 1
    ensures r.Success? ==>
              && |r.value| == |hex| / 2
              && forall i :: 0 <= i < |r.value| ==> r.value[i] == ByteOfDigits(hex[2 * i], hex[2 * i + 1])
  {
    if |hex| % 2 == 1 {
      return Failure(General(ODD_DIGITS));
    }
    var arr := new u8[|hex| / 2];
    var i := 0;
    while i < |hex| / 2
      invariant 0 <= i <= arr.Length == |hex| / 2
      invariant forall j :: 0 <= j < i ==> arr[j] == ByteOfDigits(hex[2 * j], hex[2 * j + 1])
    {
      arr[i] := ByteOfDigits(hex[2 * i], hex[2 * i + 1]);
      i := i + 1;
    }
    forall j | 0 <= j < arr.Length
      ensures arr[..][j] == Pairs(hex)[j]
    {
      PairsAt(hex, j);
    }
    assert arr[..] == Pairs(hex);
    r := Success(arr[..]);
  }

  /** For a text of hex digits of either case, each byte is the two-digit
      number its pair spells. */
  lemma DecodeHexDigits(hex: string, i: nat)
    requires AllHex(hex) && |hex| % 2 == 0 && i < |hex| / 2
    ensures DecodeHex(hex).Success?
    ensures DecodeHex(hex).value[i] as int == 16 * HexValue(hex[2 * i]) + HexValue(hex[2 * i + 1])
  {
    PairsAt(hex, i);
  }

  // ---------------------------------------------------------------------
  // Lower-case hex of bytes ("{0:x2}" per byte)
  // ---------------------------------------------------------------------

  /** The bytes written as two lower-case hex digits each, first byte
      first. */
  function EncodeHex(bytes: seq<u8>): (hex: string)
    ensures |hex| == 2 * |bytes|
  {
    if bytes == [] then [] else HexFixed(bytes[0] as nat, 2) + EncodeHex(bytes[1..])
  }

  lemma {:induction false} EncodeHexConcat(a: seq<u8>, b: seq<u8>)
    ensures EncodeHex(a + b) == EncodeHex(a) + EncodeHex(b)
    decreases |a|
  {
    if a != [] {
      assert (a + b)[0] == a[0];
      assert (a + b)[1..] == a[1..] + b;
      EncodeHexConcat(a[1..], b);
      calc {
        EncodeHex(a + b);
        HexFixed(a[0] as nat, 2) + EncodeHex(a[1..] + b);
        HexFixed(a[0] as nat, 2) + (EncodeHex(a[1..]) + EncodeHex(b));
        (HexFixed(a[0] as nat, 2) + EncodeHex(a[1..])) + EncodeHex(b);
      }
    } else {
      assert a + b == b;
    }
  }

  /** Two digits of a byte decode to the byte. */
  lemma ByteDigits(b: u8)
    ensures var h := HexFixed(b as nat, 2);
            ByteOfDigits(h[0], h[1]) == b
  {
    HexFixedTwo(b as nat);
  }

  /** Two hex digits of v: the digit of v / 16, then the digit of v. */
  lemma HexFixedTwo(v: nat)
    ensures HexFixed(v, 2) == [HexDigit(v / 16), HexDigit(v)]
  {
    assert HexFixed(v / 16, 1) == HexFixed(v / 16 / 16, 0) + [HexDigit(v / 16)];
  }

  /** Decoding undoes encoding: StringToByteArray recovers every byte
      sequence from its hex. */
  lemma {:induction false} DecodeEncode(bytes: seq<u8>)
    ensures DecodeHex(EncodeHex(bytes)) == Success(bytes)
  {
    PairsEncode(bytes);
  }

  lemma {:induction false} PairsEncode(bytes: seq<u8>)
    ensures Pairs(EncodeHex(bytes)) == bytes
  {
    if bytes != [] {
      var hex := EncodeHex(bytes);
      var h := HexFixed(bytes[0] as nat, 2);
      ByteDigits(bytes[0]);
      assert hex[0] == h[0] && hex[1] == h[1];
      assert hex[2..] == EncodeHex(bytes[1..]);
      PairsEncode(bytes[1..]);
    }
  }

  predicate AllLowerHex(s: string)
  {
    forall i :: 0 <= i < |s| ==> IsHexDigit(s[i]) && !('A' <= s[i] <= 'F')
  }

  /** Encoding undoes decoding for lower-case digits: an even-length text of
      lower-case hex digits is the hex of the bytes it decodes to. */
  lemma {:induction false} EncodeDecode(hex: string)
    requires AllLowerHex(hex) && |hex| % 2 == 0
    ensures DecodeHex(hex).Success? && EncodeHex(DecodeHex(hex).value) == hex
  {
    EncodePairs(hex);
  }

  lemma {:induction false} EncodePairs(hex: string)
    requires AllLowerHex(hex) && |hex| % 2 == 0
    ensures EncodeHex(Pairs(hex)) == hex
    decreases |hex|
  {
    if hex != [] {
      var rest := hex[2..];
      assert AllLowerHex(rest) by {
        forall i | 0 <= i < |rest|
          ensures IsHexDigit(rest[i]) && !('A' <= rest[i] <= 'F')
        {
          assert rest[i] == hex[i + 2];
        }
      }
      EncodePairs(rest);
      PairDigits(hex[0], hex[1]);
      var p := Pairs(hex);
      assert p == [ByteOfDigits(hex[0], hex[1])] + Pairs(rest);
      assert p[0] == ByteOfDigits(hex[0], hex[1]) && p[1..] == Pairs(rest);
      assert hex == [hex[0], hex[1]] + rest;
    }
  }

  /** A pair of lower-case digits is the hex of the byte it decodes to. */
  lemma PairDigits(hi: char, lo: char)
    requires IsHexDigit(hi) && !('A' <= hi <= 'F')
    requires IsHexDigit(lo) && !('A' <= lo <= 'F')
    ensures HexFixed(ByteOfDigits(hi, lo) as nat, 2) == [hi, lo]
  {
    var b := ByteOfDigits(hi, lo) as nat;
    HexDigitValue(hi);
    HexDigitValue(lo);
    HexFixedTwo(b);
    assert b / 16 == HexValue(hi) && b % 16 == HexValue(lo);
  }

  // ---------------------------------------------------------------------
  // The 16-bit additive checksum
  // ---------------------------------------------------------------------

  /** The sum of the bytes, without wrap-around. */
  function Sum(bytes: seq<u8>): nat
  {
    if bytes == [] then 0 else Sum(bytes[..|bytes| - 1]) + bytes[|bytes| - 1] as nat
  }

  lemma SumStep(bytes: seq<u8>, b: u8)
    ensures Sum(bytes + [b]) == Sum(bytes) + b as nat
  {
    assert (bytes + [b])[..|bytes|] == bytes;
  }

  /** `checksum += x` on a UInt16: the sum wraps modulo 2^16. */
  function Add16(checksum: u16, x: nat): (r: u16)
    ensures r as int == (checksum as int + x) % 0x1_0000
  {
    ((checksum as int + x) % 0x1_0000) as u16
  }

  /** The checksum VerifyChecksum expects at the end of a block: the
      payload's bytes summed modulo 2^16. */
  function Checksum(payload: seq<u8>): (c: u16)
  {
    (Sum(payload) % 0x1_0000) as u16
  }

  /** A 16-bit value as its two bytes, high byte first. */
  function Word(c: u16): (bytes: seq<u8>)
    ensures |bytes| == 2 && 256 * bytes[0] as int + bytes[1] as int == c as int
  {
    [(c as int / 0x100) as u8, (c as int % 0x100) as u8]
  }

  // ---------------------------------------------------------------------
  // VerifyChecksum
  // ---------------------------------------------------------------------

  /** The "{0:X4}" rendering of a checksum in the error message. */
  function BadChecksum(calculated: u16, received: u16): string
  {
    "Invalid checksum - calculated " + UpperHexFixed(calculated as nat, 4) +
    ", expected " + UpperHexFixed(received as nat, 4)
  }

  /** What VerifyChecksum does with a block: a missing block or one shorter
      than its checksum is rejected; otherwise the sum of all but the last
      two bytes, modulo 2^16, must equal the last two bytes read big-endian
      (`(hi << 8) | lo`, where the shifted high byte leaves the low eight
      bits to `lo`). */
  function ChecksumVerdict(data: Option<seq<u8>>): (r: Outcome<Fault>)
    ensures data.None? || |data.value| < 2 ==> r == Fail(Protocol(SHORT_DATA))
    ensures r == Pass <==> data.Some? && |data.value| >= 2 &&
                           data.value[|data.value| - 2..] == Word(Checksum(data.value[..|data.value| - 2]))
  {
    if data.None? || |data.value| < 2 then Fail(Protocol(SHORT_DATA))
    else
      var d := data.value;
      var n := |d|;
      var calculated := Checksum(d[..n - 2]);
      var received := 256 * d[n - 2] as int + d[n - 1] as int;
      WordMatches(d[n - 2..], calculated);
      if calculated as int != received then Fail(Protocol(BadChecksum(calculated, received as u16)))
      else Pass
  }

  /** VerifyChecksum, with null as None. */
  method VerifyChecksum(data: Option<seq<u8>>) returns (r: Outcome<Fault>)
    ensures r == ChecksumVerdict(data)
  {
    if data.None? || |data.value| < 2 {
      return Fail(Protocol(SHORT_DATA));
    }
    var d := data.value;
    var checksum: u16 := 0;
    var i := 0;
    while i < |d| - 2
      invariant 0 <= i <= |d| - 2
      invariant checksum == Checksum(d[..i])
    {
      assert d[..i + 1] == d[..i] + [d[i]];
      ChecksumStep(d[..i], d[i]);
      checksum := Add16(checksum, d[i] as nat);
      i := i + 1;
    }
    var received := (256 * d[|d| - 2] as int + d[|d| - 1] as int) as u16;
    if checksum != received {
      return Fail(Protocol(BadChecksum(checksum, received)));
    }
    r := Pass;
  }

  /** VerifyChecksum accepts exactly the blocks that end in the big-endian
      checksum of the bytes before it. */
  lemma ChecksumAccepts(payload: seq<u8>, check: seq<u8>)
    requires |check| == 2
    ensures ChecksumVerdict(Some(payload + check)) == Pass <==> check == Word(Checksum(payload))
  {
    var d := payload + check;
    assert d[..|d| - 2] == payload;
    assert d[|d| - 2..] == check;
  }

  /** Two bytes read big-endian give a word exactly when they are that
      word's bytes. */
  lemma WordMatches(check: seq<u8>, c: u16)
    requires |check| == 2
    ensures (256 * check[0] as int + check[1] as int == c as int) <==> check == Word(c)
  {
    var w := Word(c);
    if 256 * check[0] as int + check[1] as int == c as int {
      assert check[0] == w[0] && check[1] == w[1];
    }
  }

  /** Changing any one byte of a block that passes, payload or checksum,
      makes it fail. */
  lemma CorruptionDetected(payload: seq<u8>, i: nat, b: u8)
    requires i < |payload| + 2
    requires b != (payload + Word(Checksum(payload)))[i]
    ensures ChecksumVerdict(Some((payload + Word(Checksum(payload)))[i := b])) != Pass
  {
    var w := Word(Checksum(payload));
    var d := (payload + w)[i := b];
    if i < |payload| {
      var p := payload[i := b];
      assert d == p + w;
      ChecksumAccepts(p, w);
      SumPoint(payload, i, b);
      var delta := b as int - payload[i] as int;
      assert Sum(p) == Sum(payload) + delta;
      assert -256 < delta < 256 && delta != 0;
      ModShift(Sum(payload), delta);
    } else {
      var c := w[i - |payload| := b];
      assert d == payload + c;
      ChecksumAccepts(payload, c);
    }
  }

  /** Replacing byte i changes the sum by the difference. */
  lemma {:induction false} SumPoint(bytes: seq<u8>, i: nat, b: u8)
    requires i < |bytes|
    ensures Sum(bytes[i := b]) == Sum(bytes) + b as int - bytes[i] as int
    decreases |bytes|
  {
    var n := |bytes|;
    var front := bytes[..n - 1];
    var changed := bytes[i := b];
    assert changed == changed[..n - 1] + [changed[n - 1]];
    assert bytes == front + [bytes[n - 1]];
    SumStep(changed[..n - 1], changed[n - 1]);
    SumStep(front, bytes[n - 1]);
    if i < n - 1 {
      assert changed[..n - 1] == front[i := b];
      SumPoint(front, i, b);
    } else {
      assert changed[..n - 1] == front;
    }
  }

  /** A change of less than 2^16 that is not zero changes a sum modulo
      2^16. */
  lemma ModShift(s: nat, delta: int)
    requires -0x1_0000 < delta < 0x1_0000 && delta != 0 && s + delta >= 0
    ensures (s + delta) % 0x1_0000 != s % 0x1_0000
  {
    var m := 0x1_0000;
    if (s + delta) % m == s % m {
      assert s + delta == m * ((s + delta) / m) + (s + delta) % m;
      assert s == m * (s / m) + s % m;
      assert delta == m * ((s + delta) / m - s / m);
      MulBound(m, (s + delta) / m - s / m);
    }
  }

  // ---------------------------------------------------------------------
  // HexString
  // ---------------------------------------------------------------------

  /** The number of data bytes HexString emits:
      max(0, min(size, data.Length - offset)). */
  function Count(length: nat, offset: int, size: int): (k: nat)
    ensures k <= length
    ensures k > 0 ==> 0 <= offset && offset + k <= length
    ensures offset >= 0 ==> k == if size <= 0 || offset >= length then 0
                                 else if size < length - offset then size else length - offset
  {
    if size <= 0 || offset >= length || offset < 0 then 0
    else if size < length - offset then size
    else length - offset
  }

  /** The data bytes HexString emits. */
  function Emitted(data: seq<u8>, offset: int, size: int): (e: seq<u8>)
    ensures |e| == Count(|data|, offset, size)
  {
    var k := Count(|data|, offset, size);
    if k == 0 then [] else data[offset..offset + k]
  }

  /** The three low bytes of an address, high first, as `(address >> 16) &
      0xff`, `(address >> 8) & 0xff` and `address & 0xff` take them. */
  function AddressBytes(address: u32): (bytes: seq<u8>)
    ensures |bytes| == 3
  {
    [((address as int / 0x1_0000) % 0x100) as u8,
     ((address as int / 0x100) % 0x100) as u8,
     (address as int % 0x100) as u8]
  }

  /** What HexString returns or throws: "{0:x6}" of the address (at least
      six digits, more for an address of 2^24 or above), "{0:x2}" of each
      emitted byte, then "{0:x4}" of the checksum of the three low address
      bytes and the emitted bytes. A negative offset with a positive size
      indexes before the start of the data. */
  function HexLine(data: seq<u8>, address: u32, offset: int, size: int): (r: Result<string, Fault>)
    ensures r.Failure? <==> offset < 0 && size > 0
    ensures r.Failure? ==> r.error == IndexOutOfRange
    ensures r.Success? ==> |r.value| >= 6 + 2 * Count(|data|, offset, size) + 4
  {
    if offset < 0 && size > 0 then Failure(IndexOutOfRange)
    else
      var e := Emitted(data, offset, size);
      Success(HexAtLeast(address as nat, 6) + EncodeHex(e) + HexFixed(Checksum(AddressBytes(address) + e) as nat, 4))
  }

  /** HexString: the checksum starts from the address bytes, and each data
      byte is appended to the line and added to the checksum, while
      `i < size` and `offset + i < data.Length`. */
  method HexString(data: seq<u8>, address: u32, offset: int, size: int) returns (r: Result<string, Fault>)
    ensures r == HexLine(data, address, offset, size)
  {
    var builder: string := [];
    var checksum: u16 := 0;
    var a := AddressBytes(address);
    checksum := Add16(checksum, a[0] as nat);
    checksum := Add16(checksum, a[1] as nat);
    checksum := Add16(checksum, a[2] as nat);
    ChecksumOfThree(a);
    builder := builder + HexAtLeast(address as nat, 6);
    assert a + Emitted(data, offset, 0) == a;
    var i := 0;
    while i < size && offset + i < |data|
      invariant 0 <= i && (i <= size || i == 0)
      invariant offset < 0 ==> i == 0
      invariant Count(|data|, offset, i) == i
      invariant builder == HexAtLeast(address as nat, 6) + EncodeHex(Emitted(data, offset, i))
      invariant checksum == Checksum(a + Emitted(data, offset, i))
      decreases size - i
    {
      if offset + i < 0 {
        return Failure(IndexOutOfRange);
      }
      var e := Emitted(data, offset, i);
      EmitStep(data, offset, i);
      EncodeStep(e, data[offset + i]);
      assert a + (e + [data[offset + i]]) == (a + e) + [data[offset + i]];
      ChecksumStep(a + e, data[offset + i]);
      builder := builder + HexFixed(data[offset + i] as nat, 2);
      checksum := Add16(checksum, data[offset + i] as nat);
      i := i + 1;
    }
    EmitDone(data, offset, size, i);
    builder := builder + HexFixed(checksum as nat, 4);
    r := Success(builder);
  }

  /** Three bytes added one by one to a checksum starting at 0 give their
      checksum. */
  lemma ChecksumOfThree(a: seq<u8>)
    requires |a| == 3
    ensures Add16(Add16(Add16(0, a[0] as nat), a[1] as nat), a[2] as nat) == Checksum(a)
  {
    ChecksumStep(a[..0], a[0]);
    ChecksumStep(a[..1], a[1]);
    ChecksumStep(a[..2], a[2]);
    assert a[..0] + [a[0]] == a[..1] && a[..1] + [a[1]] == a[..2] && a[..2] + [a[2]] == a;
  }

  /** One more byte of the loop: the next byte of the data is emitted. */
  lemma EmitStep(data: seq<u8>, offset: int, i: nat)
    requires offset >= 0 && offset + i < |data| && Count(|data|, offset, i) == i
    ensures Count(|data|, offset, i + 1) == i + 1
    ensures Emitted(data, offset, i + 1) == Emitted(data, offset, i) + [data[offset + i]]
  {
  }

  /** When the loop stops, it has emitted what HexLine emits. */
  lemma EmitDone(data: seq<u8>, offset: int, size: int, i: nat)
    requires i <= size || i == 0
    requires offset < 0 ==> i == 0
    requires Count(|data|, offset, i) == i
    requires !(i < size && offset + i < |data|)
    ensures offset >= 0 || size <= 0
    ensures Emitted(data, offset, i) == Emitted(data, offset, size)
  {
  }

  lemma EncodeStep(e: seq<u8>, b: u8)
    ensures EncodeHex(e + [b]) == EncodeHex(e) + HexFixed(b as nat, 2)
  {
    EncodeHexConcat(e, [b]);
    assert EncodeHex([b]) == HexFixed(b as nat, 2) + EncodeHex([]);
  }

  /** Adding a byte to a UInt16 checksum keeps it the checksum of the bytes
      so far. */
  lemma ChecksumStep(bytes: seq<u8>, b: u8)
    ensures Checksum(bytes + [b]) == Add16(Checksum(bytes), b as nat)
  {
    SumStep(bytes, b);
    var m := 0x1_0000;
    var s := Sum(bytes);
    assert (s + b as int) % m == (s % m + b as int) % m by {
      DivisionUnique(s + b as int, m, s / m + (s % m + b as int) / m, (s % m + b as int) % m);
    }
  }

  // ---------------------------------------------------------------------
  // The round trip
  // ---------------------------------------------------------------------

  /** v as k bytes, high byte first (v mod 256^k). */
  function BigEndian(v: nat, k: nat): (bytes: seq<u8>)
    ensures |bytes| == k
  {
    if k == 0 then [] else BigEndian(v / 0x100, k - 1) + [(v % 0x100) as u8]
  }

  /** Two hex digits see only the low byte. */
  lemma HexFixedByte(v: nat)
    ensures HexFixed(v, 2) == HexFixed(v % 0x100, 2)
  {
    DivDiv(v, 16, 16);
    HexDigitOfByte(v);
    var x := v / 16;
    var y := (v % 0x100) / 16;
    assert y == x % 16;
    assert x % 16 == y % 16;
    assert HexDigit(x) == HexDigit(y);
    HexFixedTwo(v);
    HexFixedTwo(v % 0x100);
  }

  /** 2k hex digits of v are the hex of its k low bytes, high byte first. */
  lemma {:induction false} HexFixedBytes(v: nat, k: nat)
    ensures HexFixed(v, 2 * k) == EncodeHex(BigEndian(v, k))
  {
    if k > 0 {
      DivDiv(v, 16, 16);
      assert HexFixed(v, 2 * k) == HexFixed(v / 16 / 16, 2 * (k - 1)) + HexFixed(v, 2) by {
        assert HexFixed(v, 2 * k) == HexFixed(v / 16, 2 * k - 1) + [HexDigit(v)];
        assert HexFixed(v / 16, 2 * k - 1) == HexFixed(v / 16 / 16, 2 * k - 2) + [HexDigit(v / 16)];
        HexFixedTwo(v);
      }
      HexFixedBytes(v / 0x100, k - 1);
      HexFixedByte(v);
      var low := (v % 0x100) as u8;
      EncodeHexConcat(BigEndian(v / 0x100, k - 1), [low]);
      assert EncodeHex([low]) == HexFixed(low as nat, 2) + EncodeHex([]);
    }
  }

  /** "{0:x6}" of an address below 2^24 is exactly six digits. */
  lemma HexAtLeastFixed(v: nat, n: nat)
    requires n >= 1 && v < Pow(16, n)
    ensures HexAtLeast(v, n) == HexFixed(v, n)
  {
    HexWidthBounds(v, n);
  }

  lemma AddressBytesBigEndian(address: u32)
    ensures AddressBytes(address) == BigEndian(address as nat, 3)
  {
    var v := address as nat;
    DivDiv(v, 0x100, 0x100);
    assert BigEndian(v, 3) == BigEndian(v / 0x100 / 0x100, 1) + [((v / 0x100) % 0x100) as u8] + [(v % 0x100) as u8];
  }

  lemma WordBigEndian(c: u16)
    ensures Word(c) == BigEndian(c as nat, 2)
  {
  }

  /** The loader's write line decodes, for any address below 2^24 and any
      offset the loop can index, to the address's three bytes, the emitted
      data bytes and the big-endian checksum, and that block passes
      VerifyChecksum. */
  lemma HexLineRoundTrip(data: seq<u8>, address: u32, offset: int, size: int)
    requires address < 0x100_0000
    requires offset >= 0 || size <= 0
    ensures HexLine(data, address, offset, size).Success?
    ensures var e := Emitted(data, offset, size);
            var block := AddressBytes(address) + e + Word(Checksum(AddressBytes(address) + e));
            && DecodeHex(HexLine(data, address, offset, size).value) == Success(block)
            && ChecksumVerdict(Some(block)) == Pass
  {
    var e := Emitted(data, offset, size);
    var a := AddressBytes(address);
    var c := Checksum(a + e);
    assert Pow(16, 6) == 0x100_0000;
    HexAtLeastFixed(address as nat, 6);
    HexFixedBytes(address as nat, 3);
    AddressBytesBigEndian(address);
    HexFixedBytes(c as nat, 2);
    WordBigEndian(c);
    EncodeHexConcat(a, e);
    EncodeHexConcat(a + e, Word(c));
    DecodeEncode(a + e + Word(c));
    ChecksumAccepts(a + e, Word(c));
  }

  /** The line has 6 + 2k + 4 lower-case hex digits for the k emitted bytes
      when the address is below 2^24; a larger address makes the address
      field longer than six digits. */
  lemma HexLineLength(data: seq<u8>, address: u32, offset: int, size: int)
    requires offset >= 0 || size <= 0
    ensures var line := HexLine(data, address, offset, size).value;
            var k := Count(|data|, offset, size);
            && (address < 0x100_0000 ==> |line| == 6 + 2 * k + 4 && AllLowerHex(line))
            && (address >= 0x100_0000 ==> |line| > 6 + 2 * k + 4)
  {
    var e := Emitted(data, offset, size);
    assert Pow(16, 6) == 0x100_0000;
    if address < 0x100_0000 {
      HexLineRoundTrip(data, address, offset, size);
      var block := AddressBytes(address) + e + Word(Checksum(AddressBytes(address) + e));
      EncodeLower(block);
      HexAtLeastFixed(address as nat, 6);
      HexFixedBytes(address as nat, 3);
      AddressBytesBigEndian(address);
      HexFixedBytes(Checksum(AddressBytes(address) + e) as nat, 2);
      WordBigEndian(Checksum(AddressBytes(address) + e));
      EncodeHexConcat(AddressBytes(address), e);
      EncodeHexConcat(AddressBytes(address) + e, Word(Checksum(AddressBytes(address) + e)));
    }
  }

  lemma {:induction false} EncodeLower(bytes: seq<u8>)
    ensures AllLowerHex(EncodeHex(bytes))
  {
    if bytes != [] {
      EncodeLower(bytes[1..]);
      var h := HexFixed(bytes[0] as nat, 2);
      HexFixedTwo(bytes[0] as nat);
      var hex := EncodeHex(bytes);
      assert hex == h + EncodeHex(bytes[1..]);
      forall i | 0 <= i < |hex|
        ensures IsHexDigit(hex[i]) && !('A' <= hex[i] <= 'F')
      {
        if i >= 2 {
          assert hex[i] == EncodeHex(bytes[1..])[i - 2];
        }
      }
    }
  }

  // ---------------------------------------------------------------------
  // CheckResponse
  // ---------------------------------------------------------------------

  /** CheckResponse: '+' is success, with the rest of the line as the
      message and, when the rest decodes, the bytes it spells; any other
      first character is a failure reported with the rest of the line, or
      with "No message provided." when nothing follows. An empty response
      has no first character to read. */
  method CheckResponse(response: string) returns (r: Result<Response, Fault>)
    ensures response == [] ==> r == Failure(IndexOutOfRange)
    ensures response != [] && response[0] != '+' ==>
              r == Failure(Protocol(if |response| == 1 then NO_MESSAGE else response[1..]))
    ensures response != [] && response[0] == '+' ==>
              && r.Success? && r.value.message == response[1..]
              && (r.value.data.Some? <==> |response| % 2 == 1)
              && (r.value.data.Some? ==> Success(r.value.data.value) == DecodeHex(response[1..]))
  {
    if response == [] {
      return Failure(IndexOutOfRange);
    }
    var success := response[0] == '+';
    var message := response[1..];
    if !success {
      if |message| == 0 {
        return Failure(Protocol(NO_MESSAGE));
      }
      return Failure(Protocol(message));
    }
    var data: Option<seq<u8>> := None;
    var decoded := StringToByteArray(message);
    if decoded.Success? {
      data := Some(decoded.value);
    }
    r := Success(Response(message, data));
  }

  /** A success response carrying the hex of some bytes yields exactly those
      bytes. */
  lemma ResponseCarriesBytes(bytes: seq<u8>)
    ensures var message := EncodeHex(bytes);
            |['+'] + message| % 2 == 1 && DecodeHex((['+'] + message)[1..]) == Success(bytes)
  {
    assert (['+'] + EncodeHex(bytes))[1..] == EncodeHex(bytes);
    DecodeEncode(bytes);
  }
}
