/** The SSD1303 display object: its framebuffer, dirty window and
    addressing offsets, and the operations that drive the bus. What goes
    on the bus is recorded in the ghost `trace`. */
module Driver {
  import opened Ssd1303Header
  import opened FlushSpec

  class Ssd1303 {
    /** Panel width in pixels (WIDTH) and height in 8-row pages. */
    const width: nat
    const pages: nat
    /** The bus chosen at construction. */
    const transport: Transport

    /** Page-major framebuffer: byte `p * width + x` holds column `x` of page `p`. */
    var buffer: array<byte>

    /** The dirty window in pixel coordinates, inclusive; kept by the drawing
        primitives, which widen it, and reset by `Display`. */
    var windowX1: int
    var windowY1: int
    var windowX2: int
    var windowY2: int

    var pageOffset: byte
    var columnOffset: byte

    /** Everything sent on the bus so far, oldest first. */
    ghost var trace: seq<Event>

    ghost predicate Valid()
      reads this`buffer
    {
      buffer.Length == width * pages
    }

    /** The state `Display` reads, as a value. */
    ghost function State(): Snapshot
      reads this`windowX1, this`windowY1, this`windowX2, this`windowY2
      reads this`pageOffset, this`columnOffset
    {
      Snapshot(width, pages, windowX1, windowY1, windowX2, windowY2,
               pageOffset, columnOffset, transport)
    }

    /** A display of `w` by `h` pixels on bus `t`, with offsets at their
        defaults and nothing sent yet. The dirty window is whatever the
        drawing layer leaves in it. */
    constructor (w: nat, h: nat, t: Transport)
      ensures Valid() && fresh(buffer)
      ensures width == w && pages == (h + 7) / 8 && transport == t
      ensures pageOffset == DEFAULT_PAGE_OFFSET && columnOffset == DEFAULT_COLUMN_OFFSET
      ensures trace == []
    {
      width, pages, transport := w, (h + 7) / 8, t;
      buffer := new byte[w * ((h + 7) / 8)];
      pageOffset, columnOffset := DEFAULT_PAGE_OFFSET, DEFAULT_COLUMN_OFFSET;
      trace := [];
    }

    /** Initialisation. `baseInitOk` is the outcome of the bus, pin and
        reset setup of the underlying display layer; `initListOk` is the
        outcome of writing the init command list. On success the offsets
        take this panel's values and the display is switched on last. */
    method Begin(baseInitOk: bool, initListOk: bool) returns (ok: bool)
      modifies this`trace, this`pageOffset, this`columnOffset
      ensures ok == (baseInitOk && initListOk)
      ensures !baseInitOk ==> trace == old(trace)
      ensures baseInitOk && !initListOk ==> trace == old(trace) + [Cmd(Init128x64)]
      ensures !ok ==> pageOffset == old(pageOffset) && columnOffset == old(columnOffset)
      ensures ok ==> trace == old(trace) + [Cmd(Init128x64), Cmd([DISPLAYON])]
      ensures ok ==> columnOffset == 2 && pageOffset == 0
    {
      if !baseInitOk {
        return false;
      }
      trace := trace + [Cmd(Init128x64)];
      if !initListOk {
        return false;
      }
      columnOffset := 2;
      pageOffset := 0;
      trace := trace + [Cmd([DISPLAYON])];
      return true;
    }

    /** Sends the display-off command and nothing else. */
    method Sleep()
      modifies this`trace
      ensures trace == old(trace) + [Cmd([DISPLAYOFF])]
    {
      trace := trace + [Cmd([DISPLAYOFF])];
    }

    /** Sends the display-on command and nothing else. */
    method Wake()
      modifies this`trace
      ensures trace == old(trace) + [Cmd([DISPLAYON])]
    {
      trace := trace + [Cmd([DISPLAYON])];
    }

    /** The chunk loop of the flush: sends `count` framebuffer bytes from
        `start` on as data writes of `min(remaining, maxbuff)` bytes each. */
    method WriteChunks(start: nat, count: byte, maxbuff: byte)
      requires start + count <= buffer.Length
      requires maxbuff >= 1 || count == 0
      modifies this`trace
      ensures trace == old(trace) + Chunks(DataPrefix(transport), buffer[start .. start + count], maxbuff)
    {
      ghost var data := buffer[..];
      var prefix := DataPrefix(transport);
      ghost var goal := trace + Chunks(prefix, data[start .. start + count], maxbuff);
      var ptr: nat, bytesRemaining: byte := start, count;
      while bytesRemaining > 0
        invariant start <= ptr && ptr + bytesRemaining == start + count
        invariant maxbuff >= 1 || bytesRemaining == 0
        invariant goal == trace + Chunks(prefix, data[ptr .. ptr + bytesRemaining], maxbuff)
        decreases bytesRemaining
      {
        var toWrite := Min(bytesRemaining, maxbuff);
        ChunksLoopStep(prefix, data, ptr, bytesRemaining, maxbuff, trace);
        assert buffer[ptr .. ptr + toWrite] == data[ptr .. ptr + toWrite];
        trace := trace + [Data(prefix, buffer[ptr .. ptr + toWrite])];
        ptr, bytesRemaining := ptr + toWrite, bytesRemaining - toWrite;
      }
      assert data[ptr .. ptr + bytesRemaining] == [];
      assert buffer[start .. start + count] == data[start .. start + count];
    }

    /** One turn of the page loop: the addressing triplet of page `p`,
        then its dirty bytes in chunks. */
    method SendPage(p: byte, pageStart: byte, pageEnd: byte, maxbuff: byte)
      requires Valid() && FlushSafe(State(), buffer.Length)
      requires FirstPage(State()) <= p < LastPage(State())
      requires pageStart == PageStart(State()) && pageEnd == PageEnd(State())
      requires maxbuff == MaxBuff(transport)
      modifies this`trace
      ensures trace == old(trace) + PageEvents(State(), buffer[..], p)
    {
      ghost var s := State();
      ghost var t0 := trace;
      var bytesPerPage := U8(width);
      var bytesRemaining := bytesPerPage;
      var ptr: nat := (p as nat) * (bytesPerPage as nat);
      assert ptr == RowBase(s, p);
      // fast forward to the start of the dirty range, cut off its end
      ptr := ptr + pageStart;
      bytesRemaining := U8(bytesRemaining - pageStart);
      bytesRemaining := U8(bytesRemaining - ((width - 1) - pageEnd));
      BytesRemainingExact(s);
      RowInBuffer(s, p, pageEnd);

      var cmd := [U8(SETPAGESTART + p + pageOffset),
                  U8(0x10 + (pageStart + columnOffset) / 16),
                  (pageStart + columnOffset) % 16];
      assert cmd == PageCommand(s, p);
      trace := trace + [Cmd(cmd)];

      ghost var row := Row(s, buffer[..], p);
      assert buffer[ptr .. ptr + bytesRemaining] == row;
      WriteChunks(ptr, bytesRemaining, maxbuff);
      assert trace == t0 + ([Cmd(cmd)] + Chunks(DataPrefix(transport), row, maxbuff));
      assert PageEvents(s, buffer[..], p) == [Cmd(cmd)] + Chunks(DataPrefix(transport), row, maxbuff);
    }

    /** The page and column bounds of the flush, each computed in its source
        integer type and stored in a uint8: the first visited page, one past
        the last, and the inclusive column range. */
    method DirtyRange() returns (firstPage: byte, lastPage: byte, pageStart: byte, pageEnd: byte)
      ensures firstPage == FirstPage(State()) && lastPage == LastPage(State())
      ensures pageStart == PageStart(State()) && pageEnd == PageEnd(State())
    {
      var bytesPerPage := U8(width);
      firstPage := U8(CDiv8(windowY1));
      lastPage := U8(CDiv8(windowY2 + 7));
      pageStart := U8(Min(bytesPerPage, windowX1));
      pageEnd := U8(Max(0, windowX2));
    }

    /** The framing before the page loop: I2C raises the bus clock and
        leaves one byte of its transmit buffer for the data marker; SPI
        sends up to SPI_MAX_BUFF bytes per write. */
    method BeginTransfer() returns (maxbuff: byte)
      modifies this`trace
      ensures maxbuff == MaxBuff(transport)
      ensures trace == old(trace) + Prologue(transport)
    {
      maxbuff := SPI_MAX_BUFF;
      if transport.I2C? {
        trace := trace + [SetSpeed(transport.preclk)];
        maxbuff := U8(transport.maxBufferSize - 1);
      }
    }

    /** The framing after the page loop: I2C restores the bus clock; SPI
        sends one NOP command before chip select is released. */
    method EndTransfer()
      modifies this`trace
      ensures trace == old(trace) + Epilogue(transport)
    {
      if transport.I2C? {
        trace := trace + [SetSpeed(transport.postclk)];
      } else {
        // an extra command is needed after data before chip select is released
        trace := trace + [Cmd([NOP])];
      }
    }

    /** Writes the dirty window to the controller: for each visited page its
        addressing triplet and its dirty bytes in chunks, with the
        transport's framing around the loop; then resets the window. */
    method Display()
      requires Valid() && FlushSafe(State(), buffer.Length)
      modifies this`trace, this`windowX1, this`windowY1, this`windowX2, this`windowY2
      ensures trace == old(trace) + FlushTrace(old(State()), buffer[..])
      ensures State() == AfterFlush(old(State()))
    {
      ghost var s := State();
      ghost var buf := buffer[..];
      ghost var t0 := trace;

      var firstPage, lastPage, pageStart, pageEnd := DirtyRange();
      var maxbuff := BeginTransfer();

      var p := firstPage;
      while p < lastPage
        invariant firstPage <= p && (firstPage < p ==> p <= lastPage)
        invariant State() == s && buffer[..] == buf
        invariant trace == t0 + Prologue(transport) + PagesEvents(s, buf, firstPage, p)
      {
        SendPage(p, pageStart, pageEnd, maxbuff);
        PagesEventsStep(s, buf, firstPage, p, t0 + Prologue(transport));
        p := p + 1;
      }
      assert PagesEvents(s, buf, firstPage, p) == PagesEvents(s, buf, firstPage, lastPage);
      EndTransfer();
      AppendAssoc(t0, Prologue(transport), PagesEvents(s, buf, firstPage, lastPage), Epilogue(transport));
      ResetWindow();
    }

    /** After a flush nothing is dirty: the window is reset to one empty in
        both directions, as the drawing primitives expect it. */
    method ResetWindow()
      modifies this`windowX1, this`windowY1, this`windowX2, this`windowY2
      ensures State() == AfterFlush(old(State()))
    {
      windowX1 := RESET_X1;
      windowY1 := RESET_Y1;
      windowX2 := RESET_X2;
      windowY2 := RESET_Y2;
    }
  }
}
