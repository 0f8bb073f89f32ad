/** The percent-format language shared by strFormat/strFormatP
    (firmware/shared/mbstring.c) and uartFormat/uartFormatP
    (firmware/eeprog/softuart.c): what a format text and its argument list
    write, independently of how the firmware walks the text. */
module FormatSpec {
  import opened Numerals

  /** One entry of the variable argument list, tagged with the type that the
      matching specifier reads with va_arg. */
  datatype Arg =
    | CharArg(code: u8)            // %c: an int, handed to the sink as a byte
    | WordArg(value: u16)          // %u, %x, %X: an unsigned int (16 bits on AVR)
    | RamString(mem: seq<char>)    // %s: RAM from the pointer onwards
    | FlashString(mem: seq<char>)  // %S: program memory from the pointer onwards

  predicate IsSpecifier(c: char)
  {
    c == 'c' || c == 'u' || c == 'x' || c == 'X' || c == 's' || c == 'S'
  }

  /** va_arg must meet an argument of the type the specifier names, and a
      string argument must be NUL terminated. */
  predicate Fits(spec: char, a: Arg)
  {
    match a
    case CharArg(_) => spec == 'c'
    case WordArg(_) => spec == 'u' || spec == 'x' || spec == 'X'
    case RamString(mem) => spec == 's' && NUL in mem
    case FlashString(mem) => spec == 'S' && NUL in mem
  }

  /** What one specifier writes for its argument: %c one byte, %u decimal
      without leading zeros, %x two and %X four lower-case hex digits, %s and
      %S the characters of the string before its NUL. */
  function Insertion(spec: char, a: Arg): seq<char>
    requires Fits(spec, a)
  {
    match a
    case CharArg(code) => [code as int as char]
    case WordArg(v) =>
      if spec == 'u' then Decimal(v as nat)
      else if spec == 'x' then HexFixed(v as nat, 2)
      else HexFixed(v as nat, 4)
    case RamString(mem) => CStr(mem)
    case FlashString(mem) => CStr(mem)
  }

  /** What each insertion means: %c is one character, %u reads back as the
      value, %x as its low byte and %X as the whole word, and a string
      insertion holds no NUL. */
  lemma InsertionReadsBack(spec: char, a: Arg)
    requires Fits(spec, a)
    ensures var s := Insertion(spec, a);
            && (spec == 'c' ==> |s| == 1 && s[0] as int == a.code as int)
            && (spec == 'x' ==> |s| == 2 && AllHex(s) && ParseHex(s) == a.value as nat % 256)
            && (spec == 'X' ==> |s| == 4 && AllHex(s) && ParseHex(s) == a.value as nat)
            && (spec == 'u' ==> AllDecimal(s) && ParseDecimal(s) == a.value as nat)
            && ((spec == 's' || spec == 'S') ==> NUL !in s && a.mem[..|s|] == s)
  {
    match a
    case CharArg(_) =>
    case WordArg(v) =>
      if spec == 'x' {
        ParseHexFixed(v as nat, 2);
        assert Pow(16, 2) == 256;
      } else if spec == 'X' {
        ParseHexFixed(v as nat, 4);
        assert Pow(16, 4) == 0x1_0000;
      } else {
        DecimalRoundTrip(v as nat, 0);
      }
    case RamString(mem) => CStrPrefix(mem);
    case FlashString(mem) => CStrPrefix(mem);
  }

  /** The text can be walked to its end: no '%' is left as its last
      character (the walk would step past the terminating NUL), and every
      specifier meets an argument of its type. */
  predicate Renderable(text: seq<char>, args: seq<Arg>)
    decreases |text|
  {
    if text == [] then true
    else if text[0] != '%' then Renderable(text[1..], args)
    else if |text| == 1 then false
    else if IsSpecifier(text[1]) then
      |args| > 0 && Fits(text[1], args[0]) && Renderable(text[2..], args[1..])
    else Renderable(text[2..], args)
  }

  /** The characters a format text writes for its arguments. */
  function Render(text: seq<char>, args: seq<Arg>): seq<char>
    requires Renderable(text, args)
    decreases |text|
  {
    if text == [] then []
    else if text[0] != '%' then [text[0]] + Render(text[1..], args)
    else if text[1] == '%' then ['%'] + Render(text[2..], args)
    else if IsSpecifier(text[1]) then
      Insertion(text[1], args[0]) + Render(text[2..], args[1..])
    else Render(text[2..], args)
  }

  /** The number of arguments the text consumes: one per specifier. */
  function Specifiers(text: seq<char>): nat
    decreases |text|
  {
    if |text| < 2 then 0
    else if text[0] != '%' then Specifiers(text[1..])
    else (if IsSpecifier(text[1]) then 1 else 0) + Specifiers(text[2..])
  }

  // ---------------------------------------------------------------------
  // One step of the firmware's two-character window
  // ---------------------------------------------------------------------

  /** printFormat needs an argument of the right type when it meets a specifier. */
  predicate StepFits(ch1: char, ch2: char, args: seq<Arg>)
  {
    ch1 == '%' && IsSpecifier(ch2) ==> |args| > 0 && Fits(ch2, args[0])
  }

  /** Arguments one printFormat call consumes. */
  function StepTakes(ch1: char, ch2: char): nat
  {
    if ch1 == '%' && IsSpecifier(ch2) then 1 else 0
  }

  /** Characters one printFormat call writes, for the window (ch1, ch2) and
      the arguments not yet consumed. */
  function StepWrites(ch1: char, ch2: char, args: seq<Arg>): seq<char>
    requires StepFits(ch1, ch2, args)
  {
    if ch1 != '%' then [ch1]
    else if ch2 == '%' || ch2 == NUL then ['%']
    else if IsSpecifier(ch2) then Insertion(ch2, args[0])
    else []
  }

  /** The window at the head of a renderable text writes the head of its
      rendering and leaves a renderable rest: the step the firmware's loops
      repeat. The window's second character is the text's second one, or the
      terminating NUL when the text has one character left. */
  lemma RenderStep(text: seq<char>, args: seq<Arg>, ch2: char)
    requires Renderable(text, args) && text != []
    requires (ch2 != NUL) == (|text| > 1)
    requires |text| > 1 ==> ch2 == text[1]
    ensures text[0] == '%' ==> |text| >= 2
    ensures StepFits(text[0], ch2, args)
    ensures StepTakes(text[0], ch2) <= |args|
    ensures var n := if text[0] == '%' then 2 else 1;
            var k := StepTakes(text[0], ch2);
            Renderable(text[n..], args[k..]) &&
            Render(text, args) == StepWrites(text[0], ch2, args) + Render(text[n..], args[k..])
  {
  }

  /** RenderStep at position p of a text being walked, with `out` already
      written: the window extends `out` towards the same total, and the walk
      continues one position on (plain character) or two ('%'), past the
      arguments the window consumed. */
  lemma TextStep(text: seq<char>, args: seq<Arg>, p: nat, next: nat, out: seq<char>, ch2: char, total: seq<char>)
    requires p < |text| && next <= |args|
    requires (ch2 != NUL) == (p + 1 < |text|)
    requires p + 1 < |text| ==> ch2 == text[p + 1]
    requires Renderable(text[p..], args[next..])
    requires out + Render(text[p..], args[next..]) == total
    ensures var n := if text[p] == '%' then 2 else 1;
            var k := StepTakes(text[p], ch2);
            && p + n <= |text|
            && next + k <= |args|
            && StepFits(text[p], ch2, args[next..])
            && Renderable(text[p + n..], args[next + k..])
            && (out + StepWrites(text[p], ch2, args[next..])) + Render(text[p + n..], args[next + k..]) == total
  {
    var rest := text[p..];
    var more := args[next..];
    RenderStep(rest, more, ch2);
    var n := if text[p] == '%' then 2 else 1;
    var k := StepTakes(text[p], ch2);
    assert rest[n..] == text[p + n..];
    assert more[k..] == args[next + k..];
    Regroup(out, StepWrites(text[p], ch2, more), Render(text[p + n..], args[next + k..]), total);
  }

  /** TextStep for a format string held in memory up to its NUL: the window
      is (mem[p], mem[p + 1]), and mem[p] is not the NUL. */
  lemma WalkStep(mem: seq<char>, args: seq<Arg>, p: nat, next: nat, out: seq<char>, total: seq<char>)
    requires NUL in mem && p < |CStr(mem)| && next <= |args|
    requires Renderable(CStr(mem)[p..], args[next..])
    requires out + Render(CStr(mem)[p..], args[next..]) == total
    ensures var text := CStr(mem);
            var ch1, ch2 := mem[p], mem[p + 1];
            var n := if ch1 == '%' then 2 else 1;
            var k := StepTakes(ch1, ch2);
            && ch1 != NUL
            && p + n <= |text|
            && next + k <= |args|
            && StepFits(ch1, ch2, args[next..])
            && Renderable(text[p + n..], args[next + k..])
            && (out + StepWrites(ch1, ch2, args[next..])) + Render(text[p + n..], args[next + k..]) == total
  {
    CStrAt(mem, p);
    CStrAt(mem, p + 1);
    TextStep(CStr(mem), args, p, next, out, mem[p + 1], total);
  }

  // ---------------------------------------------------------------------
  // Properties of the format language
  // ---------------------------------------------------------------------

  /** A text with no '%' is written verbatim, whatever the arguments. */
  lemma {:induction false} RenderVerbatim(text: seq<char>, args: seq<Arg>)
    requires '%' !in text
    ensures Renderable(text, args) && Render(text, args) == text
  {
    if text != [] {
      assert text == [text[0]] + text[1..];
      RenderVerbatim(text[1..], args);
    }
  }

  /** Each specifier consumes exactly one argument and %% none: a renderable
      text uses exactly its first Specifiers(text) arguments, and further
      arguments change nothing. */
  lemma {:induction false} ArgumentsConsumed(text: seq<char>, args: seq<Arg>, extra: seq<Arg>)
    requires Renderable(text, args)
    ensures Specifiers(text) <= |args|
    ensures Renderable(text, args[..Specifiers(text)])
    ensures Render(text, args[..Specifiers(text)]) == Render(text, args)
    ensures Renderable(text, args + extra) && Render(text, args + extra) == Render(text, args)
  {
    if text == [] {
    } else if text[0] != '%' {
      ArgumentsConsumed(text[1..], args, extra);
    } else if IsSpecifier(text[1]) {
      ArgumentsConsumed(text[2..], args[1..], extra);
      var n := Specifiers(text);
      assert args[..n][1..] == args[1..][..n - 1];
      assert (args + extra)[1..] == args[1..] + extra;
    } else {
      ArgumentsConsumed(text[2..], args, extra);
    }
  }
}
