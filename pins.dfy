/** Digital pins of the ATtiny84 target (firmware/target/avr/pins.c). Pins
    are numbered as on the DIP package; a pin definition packs the port in
    the high nibble and the bit in the low nibble. The six I/O registers the
    routines touch are byte fields of an `Avr` object, and the functions
    Configure, Drive and Level say what pinConfig, pinWrite and pinRead do to
    them. */
module Pins {

  // ---------------------------------------------------------------------
  // Pin definitions
  // ---------------------------------------------------------------------

  const NONE: bv8 := 0
  const PORT_A: bv8 := 1
  const PORT_B: bv8 := 2

  /** The highest DIP pin number of the package. */
  const MAX_PIN: bv8 := 14

  /** PINDEF: port in the high nibble, bit in the low nibble. */
  function PinDef(port: bv8, bit: bv8): (def: bv8)
    requires port < 16 && bit < 16
    ensures GetPort(def) == port && GetPin(def) == bit
  {
    (port << 4) | bit
  }

  /** GETPORT */
  function GetPort(def: bv8): (port: bv8)
    ensures port < 16
  {
    (def >> 4) & 0x0F
  }

  /** GETPIN */
  function GetPin(def: bv8): (bit: bv8)
    ensures bit < 16
  {
    def & 0x0F
  }

  /** Every byte is the definition of its own port and bit: the two nibbles
      lose nothing. */
  lemma PinDefFields(def: bv8)
    ensures PinDef(GetPort(def), GetPin(def)) == def
  {
  }

  /** The definitions of DIP pins 1 to 14, in pin order: entry 0 is pin 1
      (Vcc), entry 13 is pin 14 (GND). */
  const PinTable: seq<bv8> := [
    0x00,  //  1 Vcc
    0x20,  //  2 PB0
    0x21,  //  3 PB1
    0x00,  //  4 RESET
    0x22,  //  5 PB2
    0x17,  //  6 PA7
    0x16,  //  7 PA6
    0x15,  //  8 PA5
    0x14,  //  9 PA4
    0x13,  // 10 PA3
    0x12,  // 11 PA2
    0x11,  // 12 PA1
    0x10,  // 13 PA0
    0x00   // 14 GND
  ]

  /** isPinValid as written: the table is indexed by the pin number itself,
      so pin 14 reads the program-memory byte just past the table, given
      here as `beyond`. */
  function IsPinValidAsWritten(pin: bv8, beyond: bv8): (def: bv8)
    ensures pin > MAX_PIN ==> def == 0
  {
    if pin > MAX_PIN then 0
    else if pin < MAX_PIN then PinTable[pin]
    else beyond
  }

  /** The lookup as written answers for every DIP pin with the definition of
      the next pin: pin 2 (PB0) drives PB1, pin 1 (Vcc) is usable as PB0, and
      pin 14 depends on whatever follows the table. */
  lemma IsPinValidOffByOne(beyond: bv8)
    ensures forall pin: bv8 :: 1 <= pin < MAX_PIN ==> IsPinValidAsWritten(pin, beyond) == PinDefinition(pin + 1)
    ensures IsPinValidAsWritten(2, beyond) == PinDef(PORT_B, 1) != PinDefinition(2)
    ensures IsPinValidAsWritten(1, beyond) != 0 && PinDefinition(1) == 0
    ensures IsPinValidAsWritten(MAX_PIN, beyond) == beyond
  {
    forall pin: bv8 | 1 <= pin < MAX_PIN
      ensures IsPinValidAsWritten(pin, beyond) == PinDefinition(pin + 1)
    {
      assert PinTable[pin] == PinTable[(pin + 1) - 1];
    }
  }

  /** isPinValid with the table indexed by pin - 1, as its entry comments
      lay it out: 0 for pins out of range and for the supply, reset and
      ground pins, otherwise the port and bit of the pin. */
  function PinDefinition(pin: bv8): (def: bv8)
    ensures pin == 0 || pin > MAX_PIN ==> def == 0
  {
    if 1 <= pin <= MAX_PIN then PinTable[pin - 1] else 0
  }

  /** The ATtiny84 DIP pin-out: pins 2, 3 and 5 are PB0, PB1 and PB2, pins 6
      to 13 are PA7 down to PA0, and pins 1, 4 and 14 are not usable. Every
      usable definition names port A or B and a bit below 8. */
  lemma DipPinout()
    ensures PinDefinition(2) == PinDef(PORT_B, 0)
    ensures PinDefinition(3) == PinDef(PORT_B, 1)
    ensures PinDefinition(5) == PinDef(PORT_B, 2)
    ensures forall pin: bv8 :: 6 <= pin <= 13 ==> PinDefinition(pin) == PinDef(PORT_A, 13 - pin)
    ensures forall pin: bv8 :: (PinDefinition(pin) == 0) == !(2 <= pin <= 13 && pin != 4)
    ensures forall pin: bv8 :: PinDefinition(pin) != 0 ==>
              (GetPort(PinDefinition(pin)) == PORT_A || GetPort(PinDefinition(pin)) == PORT_B) &&
              GetPin(PinDefinition(pin)) < 8
  {
    forall pin: bv8 | 6 <= pin <= 13
      ensures PinDefinition(pin) == PinDef(PORT_A, 13 - pin)
    {
      assert PinTable[pin - 1] == PinDef(PORT_A, 13 - pin);
    }
  }

  // ---------------------------------------------------------------------
  // Registers
  // ---------------------------------------------------------------------

  datatype Direction = Output | Input | InputPullup

  /** DDRA/DDRB (direction), PORTA/PORTB (output and pull-up) and PINA/PINB
      (the register pinWrite and pinRead use). */
  datatype Registers = Registers(ddra: bv8, ddrb: bv8, porta: bv8, portb: bv8, pina: bv8, pinb: bv8)

  /** Whether bit k of a register is set. */
  predicate IsSet(b: bv8, k: bv8)
    requires k < 8
  {
    (b >> k) & 1 == 1
  }

  /** `1 << GETPIN(def)` stored in a byte: no bit at all for a pin number of
      8 or more. */
  function BitOf(def: bv8): bv8
  {
    if GetPin(def) < 8 then 1 << GetPin(def) else 0
  }

  /** `reg |= bit` */
  function Raise(reg: bv8, bit: bv8): bv8
  {
    reg | bit
  }

  /** `reg &= ~bit` */
  function Lower(reg: bv8, bit: bv8): bv8
  {
    reg & !bit
  }

  /** `reg & bit` taken as a truth value. */
  predicate AnySet(reg: bv8, bit: bv8)
  {
    reg & bit != 0
  }

  /** Setting the pin's bit sets that bit and no other. */
  lemma RaiseBit(b: bv8, def: bv8, k: bv8)
    requires k < 8
    ensures IsSet(Raise(b, BitOf(def)), k) == (k == GetPin(def) || IsSet(b, k))
  {
  }

  /** Clearing the pin's bit clears that bit and no other. */
  lemma LowerBit(b: bv8, def: bv8, k: bv8)
    requires k < 8
    ensures IsSet(Lower(b, BitOf(def)), k) == (k != GetPin(def) && IsSet(b, k))
  {
  }

  /** Testing the pin's bit reads that bit; a pin number of 8 or more reads
      nothing. */
  lemma AnySetBit(b: bv8, def: bv8)
    ensures AnySet(b, BitOf(def)) == (GetPin(def) < 8 && IsSet(b, GetPin(def)))
  {
  }

  /** Anything but port A is handled as port B. */
  predicate OnPortA(def: bv8)
  {
    GetPort(def) == PORT_A
  }

  function DdrOf(r: Registers, def: bv8): bv8
  {
    if OnPortA(def) then r.ddra else r.ddrb
  }

  function PortOf(r: Registers, def: bv8): bv8
  {
    if OnPortA(def) then r.porta else r.portb
  }

  function PinOf(r: Registers, def: bv8): bv8
  {
    if OnPortA(def) then r.pina else r.pinb
  }

  /** The registers after pinConfig with definition `def`. */
  function Configure(r: Registers, def: bv8, direction: Direction): (r': Registers)
    ensures def == 0 ==> r' == r
    ensures r'.pina == r.pina && r'.pinb == r.pinb
    ensures OnPortA(def) ==> r'.ddrb == r.ddrb && r'.portb == r.portb
    ensures !OnPortA(def) ==> r'.ddra == r.ddra && r'.porta == r.porta
  {
    var bit := BitOf(def);
    if def == 0 then r
    else if OnPortA(def) then
      if direction == Output then r.(ddra := Raise(r.ddra, bit))
      else if direction == InputPullup then r.(ddra := Lower(r.ddra, bit), porta := Raise(r.porta, bit))
      else r.(ddra := Lower(r.ddra, bit))
    else
      if direction == Output then r.(ddrb := Raise(r.ddrb, bit))
      else if direction == InputPullup then r.(ddrb := Lower(r.ddrb, bit), portb := Raise(r.portb, bit))
      else r.(ddrb := Lower(r.ddrb, bit))
  }

  /** For a usable pin, pinConfig sets the pin's direction bit for OUTPUT
      and clears it for the inputs, sets the pin's port bit for
      INPUT_PULLUP, and keeps every other bit of those two registers. */
  lemma ConfigureEffect(r: Registers, def: bv8, direction: Direction)
    ensures var r' := Configure(r, def, direction);
            def != 0 ==> forall k: bv8 :: k < 8 ==>
              IsSet(DdrOf(r', def), k) == (if k == GetPin(def) then direction == Output else IsSet(DdrOf(r, def), k))
    ensures var r' := Configure(r, def, direction);
            def != 0 ==> forall k: bv8 :: k < 8 ==>
              IsSet(PortOf(r', def), k) == ((k == GetPin(def) && direction == InputPullup) || IsSet(PortOf(r, def), k))
  {
    var r' := Configure(r, def, direction);
    if def != 0 {
      forall k: bv8 | k < 8
        ensures IsSet(DdrOf(r', def), k) == (if k == GetPin(def) then direction == Output else IsSet(DdrOf(r, def), k))
        ensures IsSet(PortOf(r', def), k) == ((k == GetPin(def) && direction == InputPullup) || IsSet(PortOf(r, def), k))
      {
        ConfigureBit(r, def, direction, k);
      }
    }
  }

  /** ConfigureEffect for one bit position. */
  lemma ConfigureBit(r: Registers, def: bv8, direction: Direction, k: bv8)
    requires def != 0 && k < 8
    ensures var r' := Configure(r, def, direction);
            && IsSet(DdrOf(r', def), k) == (if k == GetPin(def) then direction == Output else IsSet(DdrOf(r, def), k))
            && IsSet(PortOf(r', def), k) == ((k == GetPin(def) && direction == InputPullup) || IsSet(PortOf(r, def), k))
  {
    var ddr, port := DdrOf(r, def), PortOf(r, def);
    ConfigureFields(r, def, direction);
    if direction == Output {
      RaiseBit(ddr, def, k);
    } else {
      LowerBit(ddr, def, k);
      if direction == InputPullup {
        RaiseBit(port, def, k);
      }
    }
  }

  /** The pin's two registers after pinConfig, in terms of Raise and Lower. */
  lemma ConfigureFields(r: Registers, def: bv8, direction: Direction)
    requires def != 0
    ensures var r' := Configure(r, def, direction);
            && DdrOf(r', def) == (if direction == Output then Raise(DdrOf(r, def), BitOf(def)) else Lower(DdrOf(r, def), BitOf(def)))
            && PortOf(r', def) == (if direction == InputPullup then Raise(PortOf(r, def), BitOf(def)) else PortOf(r, def))
  {
  }

  /** The registers after pinWrite with definition `def`. */
  function Drive(r: Registers, def: bv8, state: bool): (r': Registers)
    ensures def == 0 ==> r' == r
    ensures r'.ddra == r.ddra && r'.ddrb == r.ddrb && r'.porta == r.porta && r'.portb == r.portb
    ensures OnPortA(def) ==> r'.pinb == r.pinb
    ensures !OnPortA(def) ==> r'.pina == r.pina
  {
    var bit := BitOf(def);
    if def == 0 then r
    else if OnPortA(def) then
      if state then r.(pina := Raise(r.pina, bit)) else r.(pina := Lower(r.pina, bit))
    else
      if state then r.(pinb := Raise(r.pinb, bit)) else r.(pinb := Lower(r.pinb, bit))
  }

  /** For a usable pin, pinWrite sets or clears the pin's bit of its PIN
      register and changes no other bit of it. */
  lemma DriveEffect(r: Registers, def: bv8, state: bool)
    ensures var r' := Drive(r, def, state);
            def != 0 ==> forall k: bv8 :: k < 8 ==>
              IsSet(PinOf(r', def), k) == (if k == GetPin(def) then state else IsSet(PinOf(r, def), k))
  {
    var r' := Drive(r, def, state);
    if def != 0 {
      forall k: bv8 | k < 8
        ensures IsSet(PinOf(r', def), k) == (if k == GetPin(def) then state else IsSet(PinOf(r, def), k))
      {
        if state {
          RaiseBit(PinOf(r, def), def, k);
        } else {
          LowerBit(PinOf(r, def), def, k);
        }
      }
    }
  }

  /** The value pinRead returns for definition `def`: false for an
      unusable pin and otherwise the pin's bit of its port's PIN
      register. */
  function Level(r: Registers, def: bv8): (level: bool)
    ensures level == (def != 0 && GetPin(def) < 8 && IsSet(PinOf(r, def), GetPin(def)))
  {
    AnySetBit(PinOf(r, def), def);
    def != 0 && AnySet(PinOf(r, def), BitOf(def))
  }

  /** Two definitions name the same line when they agree on the port (as the
      routines tell ports apart) and on the bit. */
  predicate SameLine(d1: bv8, d2: bv8)
  {
    OnPortA(d1) == OnPortA(d2) && GetPin(d1) == GetPin(d2)
  }

  /** Reading a line back after driving it gives the driven state, and
      driving a line leaves what every other line reads unchanged. */
  lemma DriveThenLevel(r: Registers, def: bv8, state: bool, other: bv8)
    ensures def != 0 && GetPin(def) < 8 ==> Level(Drive(r, def, state), def) == state
    ensures !SameLine(def, other) ==> Level(Drive(r, def, state), other) == Level(r, other)
  {
    if def != 0 && GetPin(def) < 8 {
      DriveReadsBack(r, def, state);
    }
    if !SameLine(def, other) {
      DriveKeepsOthers(r, def, state, other);
    }
  }

  lemma DriveReadsBack(r: Registers, def: bv8, state: bool)
    requires def != 0 && GetPin(def) < 8
    ensures Level(Drive(r, def, state), def) == state
  {
    if state {
      RaiseBit(PinOf(r, def), def, GetPin(def));
    } else {
      LowerBit(PinOf(r, def), def, GetPin(def));
    }
  }

  lemma DriveKeepsOthers(r: Registers, def: bv8, state: bool, other: bv8)
    requires !SameLine(def, other)
    ensures Level(Drive(r, def, state), other) == Level(r, other)
  {
    if GetPin(other) < 8 && def != 0 && OnPortA(def) == OnPortA(other) {
      if state {
        RaiseBit(PinOf(r, def), def, GetPin(other));
      } else {
        LowerBit(PinOf(r, def), def, GetPin(other));
      }
    }
  }

  /** Configuring a pin never changes what any pin reads. */
  lemma ConfigureKeepsLevels(r: Registers, def: bv8, direction: Direction, other: bv8)
    ensures Level(Configure(r, def, direction), other) == Level(r, other)
  {
  }

  // ---------------------------------------------------------------------
  // The microcontroller
  // ---------------------------------------------------------------------

  /** The I/O registers of the chip that the pin routines read and update. */
  class Avr {
    var ddra: bv8
    var ddrb: bv8
    var porta: bv8
    var portb: bv8
    var pina: bv8
    var pinb: bv8
    /** The program-memory byte that follows the pin table in the firmware
        image: isPinValid reads it for pin 14. */
    const tableTail: bv8

    function Regs(): Registers
      reads this
    {
      Registers(ddra, ddrb, porta, portb, pina, pinb)
    }

    /** The registers as given, for example their power-on values, and the
        byte that follows the pin table. */
    constructor (r: Registers, tail: bv8)
      ensures Regs() == r && tableTail == tail
    {
      ddra, ddrb, porta, portb, pina, pinb := r.ddra, r.ddrb, r.porta, r.portb, r.pina, r.pinb;
      tableTail := tail;
    }

    /** The definition the routines look a pin up by: isPinValid as the
        firmware has it. */
    function Lookup(pin: bv8): (def: bv8)
      ensures pin > MAX_PIN ==> def == 0
      ensures 1 <= pin < MAX_PIN ==> def == PinDefinition(pin + 1)
    {
      IsPinValidOffByOne(tableTail);
      IsPinValidAsWritten(pin, tableTail)
    }

    /** The body of pinConfig once the pin is looked up: false for an
        unusable definition, which changes nothing; otherwise a
        read-modify-write of the pin's DDR (and PORT) bit. */
    method ConfigureDefinition(def: bv8, direction: Direction) returns (ok: bool)
      modifies this
      ensures ok == (def != 0)
      ensures Regs() == Configure(old(Regs()), def, direction)
    {
      if def == 0 {
        return false;
      }
      var bit := BitOf(def);
      if GetPort(def) == PORT_A {
        if direction == Output {
          ddra := Raise(ddra, bit);
        } else {
          ddra := Lower(ddra, bit);
          if direction == InputPullup {
            porta := Raise(porta, bit);
          }
        }
      } else {
        if direction == Output {
          ddrb := Raise(ddrb, bit);
        } else {
          ddrb := Lower(ddrb, bit);
          if direction == InputPullup {
            portb := Raise(portb, bit);
          }
        }
      }
      return true;
    }

    /** pinConfig, looking the pin up as the firmware does. */
    method PinConfig(pin: bv8, direction: Direction) returns (ok: bool)
      modifies this
      ensures ok == (Lookup(pin) != 0)
      ensures Regs() == Configure(old(Regs()), Lookup(pin), direction)
    {
      ok := ConfigureDefinition(IsPinValidAsWritten(pin, tableTail), direction);
    }

    /** pinConfig with the pin looked up by its DIP-14 number. */
    method PinConfigIntended(pin: bv8, direction: Direction) returns (ok: bool)
      modifies this
      ensures ok == (PinDefinition(pin) != 0)
      ensures Regs() == Configure(old(Regs()), PinDefinition(pin), direction)
    {
      ok := ConfigureDefinition(PinDefinition(pin), direction);
    }

    /** The body of pinWrite once the pin is looked up: sets or clears the
        pin's PIN bit; nothing for an unusable definition. */
    method DriveDefinition(def: bv8, state: bool)
      modifies this
      ensures Regs() == Drive(old(Regs()), def, state)
    {
      if def == 0 {
        return;
      }
      var bit := BitOf(def);
      if GetPort(def) == PORT_A {
        if state {
          pina := Raise(pina, bit);
        } else {
          pina := Lower(pina, bit);
        }
      } else {
        if state {
          pinb := Raise(pinb, bit);
        } else {
          pinb := Lower(pinb, bit);
        }
      }
    }

    /** pinWrite, looking the pin up as the firmware does. */
    method PinWrite(pin: bv8, state: bool)
      modifies this
      ensures Regs() == Drive(old(Regs()), Lookup(pin), state)
    {
      DriveDefinition(IsPinValidAsWritten(pin, tableTail), state);
    }

    /** pinWrite with the pin looked up by its DIP-14 number. */
    method PinWriteIntended(pin: bv8, state: bool)
      modifies this
      ensures Regs() == Drive(old(Regs()), PinDefinition(pin), state)
    {
      DriveDefinition(PinDefinition(pin), state);
    }

    /** The body of pinRead once the pin is looked up: false for an unusable
        definition, otherwise whether the pin's bit of its PIN register is
        set. */
    method LevelOf(def: bv8) returns (level: bool)
      ensures level == (def != 0 && GetPin(def) < 8 && IsSet(PinOf(Regs(), def), GetPin(def)))
      ensures level == Level(Regs(), def)
    {
      if def == 0 {
        return false;
      }
      var bit := BitOf(def);
      if GetPort(def) == PORT_A {
        return AnySet(pina, bit);
      }
      return AnySet(pinb, bit);
    }

    /** pinRead, looking the pin up as the firmware does. */
    method PinRead(pin: bv8) returns (level: bool)
      ensures level == (Lookup(pin) != 0 && GetPin(Lookup(pin)) < 8 &&
                        IsSet(PinOf(Regs(), Lookup(pin)), GetPin(Lookup(pin))))
      ensures level == Level(Regs(), Lookup(pin))
    {
      level := LevelOf(IsPinValidAsWritten(pin, tableTail));
    }

    /** pinRead with the pin looked up by its DIP-14 number. */
    method PinReadIntended(pin: bv8) returns (level: bool)
      ensures level == (PinDefinition(pin) != 0 && GetPin(PinDefinition(pin)) < 8 &&
                        IsSet(PinOf(Regs(), PinDefinition(pin)), GetPin(PinDefinition(pin))))
      ensures level == Level(Regs(), PinDefinition(pin))
    {
      level := LevelOf(PinDefinition(pin));
    }
  }
}
