/** Opcodes, the 128x64 power-up command table and the default addressing
    offsets of the SSD1303 driver's header. */
module Ssd1303Header {

  /** An unsigned 8-bit value, as travels on the bus. */
  type byte = x: int | 0 <= x < 256

  /** Bitwise OR of two bytes, as the header's `A | B` table entries use it. */
  function BitOr(a: byte, b: byte): byte
  {
    ((a as bv8) | (b as bv8)) as int
  }

  // Command opcodes of the controller.
  const SETLOWCOLUMN: byte := 0x00
  const SETHIGHCOLUMN: byte := 0x10
  const MEMORYMODE: byte := 0x20
  const SETCOLADDR: byte := 0x21
  const SETPAGEADDR: byte := 0x22
  const HORZSCROLL_STOP: byte := 0x2E
  const HORZSCROLL_START: byte := 0x2F
  const SETSTARTLINE: byte := 0x40
  const SETCONTRAST: byte := 0x81
  const SETBRIGHTNESS: byte := 0x82
  const SETLUT: byte := 0x91
  const SEGREMAP: byte := 0xA0
  const DISPLAYALLON_RESUME: byte := 0xA4
  const DISPLAYALLON: byte := 0xA5
  const NORMALDISPLAY: byte := 0xA6
  const INVERTDISPLAY: byte := 0xA7
  const SETMULTIPLEX: byte := 0xA8
  const DCDC: byte := 0xAD
  const DCDC_VAL: byte := 0x8A
  const DISPLAYOFF: byte := 0xAE
  const DISPLAYON: byte := 0xAF
  const SETPAGESTART: byte := 0xB0
  const COMSCANINC: byte := 0xC0
  const COMSCANDEC: byte := 0xC8
  const SETDISPLAYOFFSET: byte := 0xD3
  const SETDISPLAYCLOCKDIV: byte := 0xD5
  const SETAREACOLOR: byte := 0xD8
  const SETPRECHARGE: byte := 0xD9
  const SETCOMPINS: byte := 0xDA
  const SETVCOMLEVEL: byte := 0xDB
  const NOP: byte := 0xE3

  /** The I2C transport's limit for one command list: one marker byte plus
      the list must fit a 32-byte transmit buffer. */
  const I2C_COMMAND_BUFFER: nat := 32

  /** Default offsets, before `begin()` assigns the panel's values. */
  const DEFAULT_PAGE_OFFSET: byte := 0
  const DEFAULT_COLUMN_OFFSET: byte := 0

  /** The initialisation command list for a 128x64 module; opcodes are
      followed by their parameter bytes where they take one. */
  const Init128x64: seq<byte> := [
    DISPLAYOFF,
    BitOr(SETLOWCOLUMN, 0x0),             // low column = 0
    BitOr(SETHIGHCOLUMN, 0x0),            // high column = 0
    BitOr(SETSTARTLINE, 0x0),
    HORZSCROLL_STOP,
    SETCONTRAST, 0x32,
    SETBRIGHTNESS, 0x80,
    BitOr(SEGREMAP, 0x00),
    NORMALDISPLAY,
    SETMULTIPLEX, 0x3F,                   // 1/64 multiplex
    DCDC, BitOr(DCDC_VAL, 1),             // external Vcc supply
    COMSCANDEC,
    SETDISPLAYOFFSET, 0x00,
    SETDISPLAYCLOCKDIV, 0xF0,
    SETAREACOLOR, 0x05,
    SETPRECHARGE, 0xF1,
    SETCOMPINS, 0x12,
    SETLUT, 0x3F, 0x3F, 0x3F, 0x3F
  ]

  /** The table is 31 bytes, so with the I2C command marker it fits the
      32-byte buffer; it opens with DISPLAYOFF and never turns the display
      on; it starts by addressing column 0; it selects a 1/64 multiplex
      and the DC-DC parameter 0x8B. */
  lemma InitTableFacts()
    ensures |Init128x64| == 31
    ensures |Init128x64| + 1 <= I2C_COMMAND_BUFFER
    ensures Init128x64[0] == DISPLAYOFF
    ensures DISPLAYON !in Init128x64
    ensures Init128x64[1] == SETLOWCOLUMN && Init128x64[2] == SETHIGHCOLUMN
    ensures Init128x64[11] == SETMULTIPLEX && Init128x64[12] == 0x3F
    ensures Init128x64[13] == DCDC && Init128x64[14] == 0x8B
  {
    assert BitOr(DCDC_VAL, 1) == 0x8B;
    assert BitOr(SETLOWCOLUMN, 0x0) == 0x00;
    assert BitOr(SETHIGHCOLUMN, 0x0) == 0x10;
    assert BitOr(SETSTARTLINE, 0x0) == 0x40;
    assert BitOr(SEGREMAP, 0x00) == 0xA0;
  }
}
