/** The portable formatted-output helpers of firmware/shared/mbstring.c.
    Every routine writes through a character sink (FN_WRITE_CHAR); here each
    returns the characters it hands to the sink, in order. RAM and program
    memory are sequences of characters read from the pointer onwards. */
module MbString {
  import opened Numerals
  import opened FormatSpec

  /** strPrint: the characters of a RAM string up to, not including, its NUL. */
  method StrPrint(mem: seq<char>) returns (out: seq<char>)
    requires NUL in mem
    ensures out == CStr(mem)
  {
    CStrPrefix(mem);
    out := [];
    var i := 0;
    while mem[i] != NUL
      invariant 0 <= i <= |CStr(mem)|
      invariant out == mem[..i]
      decreases |CStr(mem)| - i
    {
      out := out + [mem[i]];
      i := i + 1;
    }
  }

  /** strPrintP: the same for a string in program memory, read byte by byte
      until the NUL. */
  method StrPrintP(flash: seq<char>) returns (out: seq<char>)
    requires NUL in flash
    ensures out == CStr(flash)
  {
    CStrPrefix(flash);
    out := [];
    var address := 0;
    var ch := flash[address];
    while ch != NUL
      invariant 0 <= address <= |CStr(flash)|
      invariant ch == flash[address]
      invariant out == flash[..address]
      decreases |CStr(flash)| - address
    {
      out := out + [ch];
      address := address + 1;
      ch := flash[address];
    }
  }

  /** strPrintInt: the decimal form of a 16-bit value, "0" for zero and no
      leading zeros otherwise. The loop divides by 10000, 1000, 100, 10, 1 and
      starts writing at the first non-zero digit. */
  method StrPrintInt(value: u16) returns (out: seq<char>)
    ensures out == Decimal(value as nat)
  {
    if value == 0 {
      out := ['0'];
      return;
    }
    out := [];
    var emit := false;
    var rest := value;
    var divisor: u16 := 10000;
    ghost var scale: nat := 100000;
    while divisor > 0
      invariant divisor in {0, 1, 10, 100, 1000, 10000}
      invariant scale == if divisor == 0 then 1 else divisor as nat * 10
      invariant rest as nat == value as nat % scale
      invariant emit == (value as nat / scale > 0)
      invariant out == if emit then Decimal(value as nat / scale) else []
      decreases divisor
    {
      DecimalDigitStep(value as nat, divisor as nat, rest as nat, emit, out);
      var digit := rest / divisor;
      rest := rest % divisor;
      if digit > 0 || emit {
        out := out + [DecDigit(digit as nat)];
        emit := true;
      }
      scale := divisor as nat;
      divisor := divisor / 10;
    }
  }

  /** strPrintHex: exactly `digits` lower-case hex digits of the value, most
      significant nibble first. The firmware shifts a 16-bit int by
      (digits - 1) * 4, so at most four digits are meaningful. */
  method StrPrintHex(value: u16, digits: u8) returns (out: seq<char>)
    requires digits <= 4
    ensures out == HexFixed(value as nat, digits as nat)
  {
    out := [];
    var d := digits;
    while d > 0
      invariant d <= digits
      invariant out + HexFixed(value as nat, d as nat) == HexFixed(value as nat, digits as nat)
    {
      var shifted := ShrNibbles(value as nat, (d - 1) as nat);
      HexFixedFront(value as nat, (d - 1) as nat);
      HexDigitOfByte(shifted);
      Regroup(out, [HexDigit(shifted % 256)], HexFixed(value as nat, (d - 1) as nat), HexFixed(value as nat, digits as nat));
      out := out + [HexDigit((shifted % 256) as u8 as nat)];
      d := d - 1;
    }
  }

  /** printFormat: one step of the format walk over the window (ch1, ch2).
      A plain character is written and the walk moves on by one; "%%" (and a
      '%' before the NUL) writes '%'; a specifier writes its argument's
      insertion and consumes that one argument; '%' followed by any other
      character writes nothing. In every '%' case both characters are
      skipped. */
  method PrintFormat(ch1: char, ch2: char, args: seq<Arg>, next: nat)
    returns (skip: bool, out: seq<char>, next': nat)
    requires next <= |args|
    requires StepFits(ch1, ch2, args[next..])
    ensures skip == (ch1 == '%')
    ensures next' == next + StepTakes(ch1, ch2) && next' <= |args|
    ensures out == StepWrites(ch1, ch2, args[next..])
  {
    skip := true;
    next' := next;
    out := [];
    if ch1 == '%' {
      if ch2 == '%' || ch2 == NUL {
        out := ['%'];
      } else if ch2 == 'c' {
        out := [args[next].code as int as char];
        next' := next + 1;
      } else if ch2 == 'u' {
        out := StrPrintInt(args[next].value);
        next' := next + 1;
      } else if ch2 == 'x' {
        out := StrPrintHex(args[next].value, 2);
        next' := next + 1;
      } else if ch2 == 'X' {
        out := StrPrintHex(args[next].value, 4);
        next' := next + 1;
      } else if ch2 == 's' {
        out := StrPrint(args[next].mem);
        next' := next + 1;
      } else if ch2 == 'S' {
        out := StrPrintP(args[next].mem);
        next' := next + 1;
      }
    } else {
      out := [ch1];
      skip := false;
    }
  }

  /** strFormat: the rendering of a RAM format string for its arguments. The
      walk keeps a window (ch1, ch2) and moves by two after every '%'. */
  method StrFormat(fmt: seq<char>, args: seq<Arg>) returns (out: seq<char>)
    requires NUL in fmt
    requires Renderable(CStr(fmt), args)
    ensures out == Render(CStr(fmt), args)
  {
    ghost var text := CStr(fmt);
    ghost var total := Render(text, args);
    assert text[0..] == text;
    out := [];
    var next: nat := 0;
    var ch1: char;
    var ch2 := fmt[0];
    var index := 1;
    CStrAt(fmt, 0);
    while ch2 != NUL
      invariant 1 <= index <= |text| + 1
      invariant ch2 == fmt[index - 1] && (ch2 == NUL) == (index - 1 == |text|)
      invariant next <= |args|
      invariant Renderable(text[index - 1..], args[next..]) == true
      invariant out + Render(text[index - 1..], args[next..]) == total
      decreases |text| + 1 - index
    {
      WalkStep(fmt, args, index - 1, next, out, total);
      ch1 := ch2;
      ch2 := fmt[index];
      var skip, written;
      skip, written, next := PrintFormat(ch1, ch2, args, next);
      out := out + written;
      if skip {
        ch1 := ch2;
        index := index + 1;
        ch2 := fmt[index];
      }
      index := index + 1;
      CStrAt(fmt, index - 1);
    }
  }

  /** strFormatP: the same rendering for a format string in program memory;
      only the way the index advances differs. */
  method StrFormatP(flash: seq<char>, args: seq<Arg>) returns (out: seq<char>)
    requires NUL in flash
    requires Renderable(CStr(flash), args)
    ensures out == Render(CStr(flash), args)
  {
    ghost var text := CStr(flash);
    ghost var total := Render(text, args);
    assert text[0..] == text;
    out := [];
    var next: nat := 0;
    var ch2 := flash[0];
    var ch1 := ch2;
    var index := 1;
    CStrAt(flash, 0);
    while ch2 != NUL
      invariant 1 <= index <= |text| + 1
      invariant ch2 == flash[index - 1] && (ch2 == NUL) == (index - 1 == |text|)
      invariant next <= |args|
      invariant Renderable(text[index - 1..], args[next..]) == true
      invariant out + Render(text[index - 1..], args[next..]) == total
      decreases |text| + 1 - index
    {
      WalkStep(flash, args, index - 1, next, out, total);
      ch1 := ch2;
      ch2 := flash[index];
      var skip, written;
      skip, written, next := PrintFormat(ch1, ch2, args, next);
      out := out + written;
      if skip {
        index := index + 1;
        ch1 := ch2;
        ch2 := flash[index];
      }
      index := index + 1;
      CStrAt(flash, index - 1);
    }
  }
}
