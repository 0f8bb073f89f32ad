/** Fixed-width integers, digits, numerals and NUL-terminated strings shared by
    the firmware formatter (mbstring.c, softuart.c) and the host-side line codec
    (DeviceLoader.cs). Each rendering comes with the parser that inverts it. */
module Numerals {

  newtype u8 = x: int | 0 <= x < 0x100
  newtype u16 = x: int | 0 <= x < 0x1_0000
  newtype u32 = x: int | 0 <= x < 0x1_0000_0000

  const NUL: char := '\0'

  function Pow(b: nat, n: nat): (r: nat)
    ensures b > 0 ==> r > 0
  {
    if n == 0 then 1 else b * Pow(b, n - 1)
  }

  // ---------------------------------------------------------------------
  // Division facts used by the digit loops
  // ---------------------------------------------------------------------

  /** Euclidean division is determined by its quotient/remainder equation. */
  lemma DivisionUnique(a: int, d: int, q: int, r: int)
    requires d > 0 && 0 <= r < d && a == d * q + r
    ensures a / d == q && a % d == r
  {
    var q', r' := a / d, a % d;
    assert d * (q - q') == r' - r by {
      assert d * q' + r' == d * q + r;
      assert d * (q - q') == d * q - d * q';
    }
    MulBound(d, q - q');
  }

  lemma MulBound(d: int, k: int)
    requires d > 0
    ensures k >= 1 ==> d * k >= d
    ensures k <= -1 ==> d * k <= -d
  {
    assert d * k == d * (k - 1) + d;
    assert d * k == d * (k + 1) - d;
    assert k >= 1 ==> d * (k - 1) >= 0;
    assert k <= -1 ==> d * (k + 1) <= 0;
  }

  /** Dividing by b and then by c is dividing by b * c; the digit that the
      division by b exposes is the remainder modulo c. */
  lemma DivDiv(a: nat, b: nat, c: nat)
    requires b > 0 && c > 0
    ensures a / b / c == a / (b * c)
    ensures (a % (b * c)) / b == (a / b) % c
    ensures (a % (b * c)) % b == a % b
  {
    var q, r := a / b, a % b;
    var q2, r2 := q / c, q % c;
    assert a == (b * c) * q2 + (b * r2 + r) by {
      assert a == b * q + r;
      assert q == c * q2 + r2;
      assert b * q == b * (c * q2) + b * r2;
      assert b * (c * q2) == (b * c) * q2;
    }
    assert 0 <= b * r2 + r < b * c by {
      assert r2 <= c - 1;
      assert b * r2 <= b * (c - 1);
      assert b * (c - 1) == b * c - b;
    }
    DivisionUnique(a, b * c, q2, b * r2 + r);
    DivisionUnique(b * r2 + r, b, r2, r);
  }

  // ---------------------------------------------------------------------
  // Hexadecimal digits
  // ---------------------------------------------------------------------

  predicate IsHexDigit(c: char)
  {
    ('0' <= c <= '9') || ('a' <= c <= 'f') || ('A' <= c <= 'F')
  }

  /** The value of a hexadecimal digit of either case: the reference the
      decoders are compared against. */
  function HexValue(c: char): (v: nat)
    requires IsHexDigit(c)
    ensures v < 16
  {
    if '0' <= c <= '9' then c as int - '0' as int
    else if 'a' <= c <= 'f' then c as int - 'a' as int + 10
    else c as int - 'A' as int + 10
  }

  /** The lower-case hex digit of the low nibble of v (getHexDigit). */
  function HexDigit(v: nat): (c: char)
    ensures IsHexDigit(c) && !('A' <= c <= 'F')
    ensures HexValue(c) == v % 16
  {
    var n := v % 16;
    if n < 10 then ('0' as int + n) as char else ('a' as int + n - 10) as char
  }

  /** The upper-case hex digit of the low nibble of v (.NET's "X" format). */
  function UpperHexDigit(v: nat): (c: char)
    ensures IsHexDigit(c) && !('a' <= c <= 'f')
    ensures HexValue(c) == v % 16
  {
    var c := HexDigit(v);
    if 'a' <= c <= 'f' then (c as int - 'a' as int + 'A' as int) as char else c
  }

  /** Exactly n lower-case hex digits of v, most significant first: the
      zero-padded hex of v mod 16^n. */
  function HexFixed(v: nat, n: nat): (s: seq<char>)
    ensures |s| == n
  {
    if n == 0 then [] else HexFixed(v / 16, n - 1) + [HexDigit(v)]
  }

  /** getHexDigit on a byte: narrowing to the low byte keeps the low nibble. */
  lemma HexDigitOfByte(x: nat)
    ensures HexDigit(x % 256) == HexDigit(x)
  {
    DivDiv(x, 16, 16);
  }

  /** Exactly n upper-case hex digits of v. */
  function UpperHexFixed(v: nat, n: nat): (s: seq<char>)
    ensures |s| == n
  {
    if n == 0 then [] else UpperHexFixed(v / 16, n - 1) + [UpperHexDigit(v)]
  }

  predicate AllHex(s: seq<char>)
  {
    forall i :: 0 <= i < |s| ==> IsHexDigit(s[i])
  }

  /** The value of a string of hex digits, most significant first. */
  function ParseHex(s: seq<char>): nat
    requires AllHex(s)
  {
    if s == [] then 0 else ParseHex(s[..|s| - 1]) * 16 + HexValue(s[|s| - 1])
  }

  lemma {:induction false} HexFixedDigits(v: nat, n: nat)
    ensures AllHex(HexFixed(v, n))
  {
    if n > 0 {
      HexFixedDigits(v / 16, n - 1);
    }
  }

  /** Reading back n hex digits of v yields v mod 16^n. */
  lemma {:induction false} ParseHexFixed(v: nat, n: nat)
    ensures AllHex(HexFixed(v, n))
    ensures ParseHex(HexFixed(v, n)) == v % Pow(16, n)
  {
    HexFixedDigits(v, n);
    if n > 0 {
      var s := HexFixed(v, n);
      var front := HexFixed(v / 16, n - 1);
      assert s[..|s| - 1] == front;
      ParseHexFixed(v / 16, n - 1);
      DivDiv(v, 16, Pow(16, n - 1));
      var m := Pow(16, n);
      var x := v % m;
      assert x == 16 * (x / 16) + x % 16;
      assert x % 16 == v % 16;
      assert x / 16 == (v / 16) % Pow(16, n - 1);
    }
  }

  /** v shifted right by k nibbles (v >> 4k): k divisions by 16. */
  function ShrNibbles(v: nat, k: nat): nat
  {
    if k == 0 then v else ShrNibbles(v / 16, k - 1)
  }

  /** The fixed-width numeral seen from its most significant end: n + 1
      digits of v are the digit of v >> 4n followed by n digits of v. */
  lemma {:induction false} HexFixedFront(v: nat, n: nat)
    ensures HexFixed(v, n + 1) == [HexDigit(ShrNibbles(v, n))] + HexFixed(v, n)
  {
    if n > 0 {
      HexFixedFront(v / 16, n - 1);
    }
  }

  /** Number of hex digits .NET's "x" format needs for v (at least one). */
  function HexWidth(v: nat): (w: nat)
    ensures w >= 1
  {
    if v < 16 then 1 else 1 + HexWidth(v / 16)
  }

  lemma {:induction false} HexWidthBounds(v: nat, n: nat)
    ensures v < Pow(16, HexWidth(v))
    ensures v < Pow(16, n) && n >= 1 ==> HexWidth(v) <= n
    ensures v >= Pow(16, n) ==> HexWidth(v) > n
  {
    if v >= 16 {
      if n > 0 {
        HexWidthBounds(v / 16, n - 1);
        DivDiv(v, 16, Pow(16, n - 1));
        if v < Pow(16, n) {
          assert v / 16 < Pow(16, n - 1) by {
            DivisionUnique(v, 16 * Pow(16, n - 1), 0, v);
          }
        } else {
          assert v / 16 >= Pow(16, n - 1) by {
            assert Pow(16, n) == 16 * Pow(16, n - 1);
            assert v == 16 * (v / 16) + v % 16;
          }
        }
      } else {
        HexWidthBounds(v / 16, 0);
      }
    }
  }

  /** .NET's "x<n>" format of an unsigned value: at least n lower-case hex
      digits, padded with zeros but never truncated. */
  function HexAtLeast(v: nat, n: nat): (s: seq<char>)
    ensures n >= 1 && v < Pow(16, n) ==> |s| == n
    ensures v >= Pow(16, n) ==> |s| > n
    ensures AllHex(s) && ParseHex(s) == v
  {
    HexWidthBounds(v, n);
    ParseHexFixed(v, if n < HexWidth(v) then HexWidth(v) else n);
    var w := if n < HexWidth(v) then HexWidth(v) else n;
    assert v < Pow(16, w) by {
      if w > HexWidth(v) { PowMonotone(16, HexWidth(v), w); }
    }
    DivisionUnique(v, Pow(16, w), 0, v);
    HexFixed(v, w)
  }

  lemma {:induction false} PowMonotone(b: nat, m: nat, n: nat)
    requires b >= 1 && m <= n
    ensures Pow(b, m) <= Pow(b, n)
  {
    if m < n {
      PowMonotone(b, m, n - 1);
      assert Pow(b, n) == b * Pow(b, n - 1);
      assert b * Pow(b, n - 1) >= 1 * Pow(b, n - 1);
    }
  }

  // ---------------------------------------------------------------------
  // Decimal
  // ---------------------------------------------------------------------

  predicate IsDecDigit(c: char)
  {
    '0' <= c <= '9'
  }

  function DecDigit(d: nat): (c: char)
    requires d < 10
    ensures IsDecDigit(c) && c as int - '0' as int == d
  {
    ('0' as int + d) as char
  }

  /** Decimal without leading zeros; "0" for zero. */
  function Decimal(n: nat): (s: seq<char>)
    ensures |s| >= 1
  {
    if n < 10 then [DecDigit(n)] else Decimal(n / 10) + [DecDigit(n % 10)]
  }

  predicate AllDecimal(s: seq<char>)
  {
    forall i :: 0 <= i < |s| ==> IsDecDigit(s[i])
  }

  function ParseDecimal(s: seq<char>): nat
    requires AllDecimal(s)
  {
    if s == [] then 0
    else ParseDecimal(s[..|s| - 1]) * 10 + (s[|s| - 1] as int - '0' as int)
  }

  /** The decimal numeral reads back as n, has no leading zero unless it is
      "0", and is at most w digits long when n < 10^w. */
  lemma {:induction false} DecimalRoundTrip(n: nat, w: nat)
    ensures AllDecimal(Decimal(n)) && ParseDecimal(Decimal(n)) == n
    ensures (Decimal(n)[0] == '0') == (n == 0)
    ensures w >= 1 && n < Pow(10, w) ==> |Decimal(n)| <= w
  {
    if n >= 10 {
      DecimalRoundTrip(n / 10, if w > 0 then w - 1 else 0);
      var s := Decimal(n);
      assert s[..|s| - 1] == Decimal(n / 10);
      if w >= 1 && n < Pow(10, w) {
        assert Pow(10, 1) == 10;
        assert w >= 2;
        assert n / 10 < Pow(10, w - 1) by {
          DivisionUnique(n, 10 * Pow(10, w - 1), 0, n);
          DivDiv(n, 10, Pow(10, w - 1));
        }
      }
    }
  }

  /** One step of a most-significant-first decimal loop at a positive
      divisor: `rest` is what is left of the value below divisor * 10 and
      `out` the numeral of the part above it (nothing while that part is
      zero). The division exposes the next digit, and writing it once the
      numeral has started, or when it is not zero, gives the numeral of the
      value above the divisor. */
  lemma DecimalDigitStep(value: nat, divisor: nat, rest: nat, emit: bool, out: seq<char>)
    requires divisor > 0
    requires rest == value % (divisor * 10)
    requires emit == (value / (divisor * 10) > 0)
    requires out == if emit then Decimal(value / (divisor * 10)) else []
    ensures rest / divisor < 10
    ensures rest % divisor == value % divisor
    ensures (rest / divisor > 0 || emit) == (value / divisor > 0)
    ensures (if rest / divisor > 0 || emit then out + [DecDigit(rest / divisor)] else out)
            == if value / divisor > 0 then Decimal(value / divisor) else []
  {
    DivDiv(value, divisor, 10);
    var x := value / divisor;
    assert x / 10 == value / (divisor * 10) && x % 10 == rest / divisor;
  }

  /** Output loops append a piece to what they have written: the rest still
      to write shrinks by that piece. */
  lemma Regroup(a: seq<char>, b: seq<char>, c: seq<char>, total: seq<char>)
    requires a + (b + c) == total
    ensures (a + b) + c == total
  {
  }

  // ---------------------------------------------------------------------
  // NUL-terminated strings
  // ---------------------------------------------------------------------

  /** The characters of a NUL-terminated string held in mem, up to but not
      including its first NUL. */
  function CStr(mem: seq<char>): (s: seq<char>)
    requires NUL in mem
    ensures |s| < |mem|
  {
    if mem[0] == NUL then [] else [mem[0]] + CStr(mem[1..])
  }

  /** CStr is the prefix of the memory before its first NUL: the memory
      holds it, then the NUL, and it holds no NUL itself. */
  lemma {:induction false} CStrPrefix(mem: seq<char>)
    requires NUL in mem
    ensures var s := CStr(mem);
            mem[..|s|] == s && mem[|s|] == NUL && NUL !in s
  {
    if mem[0] != NUL {
      assert mem == [mem[0]] + mem[1..];
      CStrPrefix(mem[1..]);
    }
  }

  /** Reading memory at a position up to the string's end gives the string's
      character there, or the terminating NUL at the end. */
  lemma CStrAt(mem: seq<char>, i: nat)
    requires NUL in mem && i <= |CStr(mem)|
    ensures mem[i] == if i < |CStr(mem)| then CStr(mem)[i] else NUL
    ensures (mem[i] == NUL) == (i == |CStr(mem)|)
  {
    var s := CStr(mem);
    CStrPrefix(mem);
    if i < |s| {
      assert mem[..|s|][i] == mem[i];
      assert s[i] in s;
    }
  }
}

/** Results of operations that may fail, standing in for exceptions. */
module Results {

  datatype Option<+T> = None | Some(value: T)

  datatype Result<+T, +E> = Success(value: T) | Failure(error: E)

  datatype Outcome<+E> = Pass | Fail(error: E)
}
