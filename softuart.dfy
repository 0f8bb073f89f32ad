/** The transmit side of the bit-banged serial port of the programmer
    firmware (firmware/eeprog/softuart.c). Every output routine ends in
    uartWrite, which shifts one byte out on the TX pin; here the port is an
    object whose `sent` field is the byte stream that has left the TX pin so
    far, and each routine is proved to append exactly what the format
    language of FormatSpec says it writes. */
module SoftUart {
  import opened Numerals
  import opened FormatSpec

  class Uart {
    /** Every character shifted out on TX since the port was set up. */
    var sent: seq<char>

    constructor ()
      ensures sent == []
    {
      sent := [];
    }

    /** uartWrite: one start bit, the eight data bits, one stop bit; the
        receiver sees the byte appended to the stream. */
    method Write(ch: char)
      modifies this
      ensures sent == old(sent) + [ch]
    {
      sent := sent + [ch];
    }

    /** uartPrint: the characters of a RAM string before its NUL. */
    method Print(mem: seq<char>)
      requires NUL in mem
      modifies this
      ensures sent == old(sent) + CStr(mem)
    {
      CStrPrefix(mem);
      var i := 0;
      while mem[i] != NUL
        invariant 0 <= i <= |CStr(mem)|
        invariant sent == old(sent) + mem[..i]
        decreases |CStr(mem)| - i
      {
        Write(mem[i]);
        assert mem[..i + 1] == mem[..i] + [mem[i]];
        i := i + 1;
      }
    }

    /** uartPrintP: the same for a string in program memory. */
    method PrintP(flash: seq<char>)
      requires NUL in flash
      modifies this
      ensures sent == old(sent) + CStr(flash)
    {
      CStrPrefix(flash);
      var address := 0;
      var ch := flash[address];
      while ch != NUL
        invariant 0 <= address <= |CStr(flash)|
        invariant ch == flash[address]
        invariant sent == old(sent) + flash[..address]
        decreases |CStr(flash)| - address
      {
        Write(ch);
        assert flash[..address + 1] == flash[..address] + [ch];
        address := address + 1;
        ch := flash[address];
      }
    }

    /** uartPrintHex: exactly `digits` lower-case hex digits, most significant
        first; the firmware's 16-bit shift makes at most four meaningful. */
    method PrintHex(value: u16, digits: u8)
      requires digits <= 4
      modifies this
      ensures sent == old(sent) + HexFixed(value as nat, digits as nat)
    {
      ghost var total := old(sent) + HexFixed(value as nat, digits as nat);
      var d := digits;
      while d > 0
        invariant d <= digits
        invariant sent + HexFixed(value as nat, d as nat) == total
      {
        var shifted := ShrNibbles(value as nat, (d - 1) as nat);
        HexFixedFront(value as nat, (d - 1) as nat);
        HexDigitOfByte(shifted);
        Regroup(sent, [HexDigit(shifted % 256)], HexFixed(value as nat, (d - 1) as nat), total);
        Write(HexDigit((shifted % 256) as u8 as nat));
        d := d - 1;
      }
    }

    /** uartPrintInt: decimal without leading zeros, "0" for zero. */
    method PrintInt(value: u16)
      modifies this
      ensures sent == old(sent) + Decimal(value as nat)
    {
      if value == 0 {
        Write('0');
        return;
      }
      ghost var out: seq<char> := [];
      var emit := false;
      var rest := value;
      var divisor: u16 := 10000;
      ghost var scale: nat := 100000;
      while divisor > 0
        invariant divisor in {0, 1, 10, 100, 1000, 10000}
        invariant scale == if divisor == 0 then 1 else divisor as nat * 10
        invariant rest as nat == value as nat % scale
        invariant emit == (value as nat / scale > 0)
        invariant out == if emit then Decimal(value as nat / scale) else []
        invariant sent == old(sent) + out
        decreases divisor
      {
        DecimalDigitStep(value as nat, divisor as nat, rest as nat, emit, out);
        var digit := rest / divisor;
        rest := rest % divisor;
        if digit > 0 || emit {
          Write(DecDigit(digit as nat));
          out := out + [DecDigit(digit as nat)];
          emit := true;
        }
        scale := divisor as nat;
        divisor := divisor / 10;
      }
    }

    /** printFormat: one step of the format walk over the window (ch1, ch2);
        `skip` tells the caller to step over both characters. */
    method PrintFormat(ch1: char, ch2: char, args: seq<Arg>, next: nat) returns (skip: bool, next': nat)
      requires next <= |args|
      requires StepFits(ch1, ch2, args[next..])
      modifies this
      ensures skip == (ch1 == '%')
      ensures next' == next + StepTakes(ch1, ch2) && next' <= |args|
      ensures sent == old(sent) + StepWrites(ch1, ch2, args[next..])
    {
      skip := true;
      next' := next;
      if ch1 == '%' {
        if ch2 == '%' || ch2 == NUL {
          Write('%');
        } else if ch2 == 'c' {
          Write(args[next].code as int as char);
          next' := next + 1;
        } else if ch2 == 'u' {
          PrintInt(args[next].value);
          next' := next + 1;
        } else if ch2 == 'x' {
          PrintHex(args[next].value, 2);
          next' := next + 1;
        } else if ch2 == 'X' {
          PrintHex(args[next].value, 4);
          next' := next + 1;
        } else if ch2 == 's' {
          Print(args[next].mem);
          next' := next + 1;
        } else if ch2 == 'S' {
          PrintP(args[next].mem);
          next' := next + 1;
        }
      } else {
        Write(ch1);
        skip := false;
      }
    }

    /** uartFormat: the rendering of a RAM format string for its arguments. */
    method Format(fmt: seq<char>, args: seq<Arg>)
      requires NUL in fmt
      requires Renderable(CStr(fmt), args)
      modifies this
      ensures sent == old(sent) + Render(CStr(fmt), args)
    {
      ghost var text := CStr(fmt);
      ghost var total := old(sent) + Render(text, args);
      assert text[0..] == text;
      var next: nat := 0;
      var ch1: char;
      var ch2 := fmt[0];
      var index := 1;
      CStrAt(fmt, 0);
      while ch2 != NUL
        invariant 1 <= index <= |text| + 1
        invariant ch2 == fmt[index - 1] && (ch2 == NUL) == (index - 1 == |text|)
        invariant next <= |args|
        invariant Renderable(text[index - 1..], args[next..]) == true
        invariant sent + Render(text[index - 1..], args[next..]) == total
        decreases |text| + 1 - index
      {
        WalkStep(fmt, args, index - 1, next, sent, total);
        ch1 := ch2;
        ch2 := fmt[index];
        var skip;
        skip, next := PrintFormat(ch1, ch2, args, next);
        if skip {
          ch1 := ch2;
          index := index + 1;
          ch2 := fmt[index];
        }
        index := index + 1;
        CStrAt(fmt, index - 1);
      }
    }

    /** uartFormatP: the same for a format string in program memory. */
    method FormatP(flash: seq<char>, args: seq<Arg>)
      requires NUL in flash
      requires Renderable(CStr(flash), args)
      modifies this
      ensures sent == old(sent) + Render(CStr(flash), args)
    {
      ghost var text := CStr(flash);
      ghost var total := old(sent) + Render(text, args);
      assert text[0..] == text;
      var next: nat := 0;
      var ch2 := flash[0];
      var ch1 := ch2;
      var index := 1;
      CStrAt(flash, 0);
      while ch2 != NUL
        invariant 1 <= index <= |text| + 1
        invariant ch2 == flash[index - 1] && (ch2 == NUL) == (index - 1 == |text|)
        invariant next <= |args|
        invariant Renderable(text[index - 1..], args[next..]) == true
        invariant sent + Render(text[index - 1..], args[next..]) == total
        decreases |text| + 1 - index
      {
        WalkStep(flash, args, index - 1, next, sent, total);
        ch1 := ch2;
        ch2 := flash[index];
        var skip;
        skip, next := PrintFormat(ch1, ch2, args, next);
        if skip {
          index := index + 1;
          ch1 := ch2;
          ch2 := flash[index];
        }
        index := index + 1;
        CStrAt(flash, index - 1);
      }
    }
  }
}
