/** What `SSD1303::display()` puts on the bus, as functions of the state it
    reads: the dirty window, the offsets, the framebuffer and the transport.
    Every uint8 cast of the code is written out with `U8`, and C's
    truncating division by 8 with `CDiv8`. */
module FlushSpec {
  import opened Ssd1303Header

  /** One bus operation: a command list, one data write (with the marker byte
      the transport puts in front of it), or a change of bus clock speed. */
  datatype Event =
    | Cmd(bytes: seq<byte>)
    | Data(prefix: seq<byte>, payload: seq<byte>)
    | SetSpeed(hz: nat)

  /** The bus the display sits on. For I2C, `maxBufferSize` is what the
      adapter reports, and the clocks are the speeds used during and after
      a transfer. */
  datatype Transport =
    | I2C(maxBufferSize: nat, preclk: nat, postclk: nat)
    | Spi

  /** The state `display()` reads: panel geometry, the dirty window (as
      int16 pixel coordinates), the addressing offsets and the transport. */
  datatype Snapshot = Snapshot(
    width: nat, pages: nat,
    x1: int, y1: int, x2: int, y2: int,
    pageOffset: byte, columnOffset: byte,
    transport: Transport)

  /** The data/command marker byte put before every I2C data write. */
  const DATA_MARKER: byte := 0x40

  /** The chunk limit on SPI. */
  const SPI_MAX_BUFF: byte := 128

  /** The dirty window `display()` leaves behind: empty, because x1 > x2
      and y1 > y2. */
  const RESET_X1: int := 1024
  const RESET_Y1: int := 1024
  const RESET_X2: int := -1
  const RESET_Y2: int := -1

  /** Assignment of an int to a uint8 variable. */
  function U8(x: int): (r: byte)
    ensures 0 <= x < 256 ==> r == x
  {
    x % 256
  }

  /** C's integer division by 8, which truncates toward zero (the code
      only ever divides the window's rows by 8). */
  function CDiv8(a: int): (q: int)
    ensures a >= 0 ==> q == a / 8
    ensures a < 0 ==> q <= 0 && 8 * q >= a > 8 * (q - 1)
  {
    if a >= 0 then a / 8 else -((-a) / 8)
  }

  function Min(a: int, b: int): int { if a < b then a else b }
  function Max(a: int, b: int): int { if a < b then b else a }

  /** `bytes_per_page`, a uint8 holding WIDTH. */
  function BytesPerPage(s: Snapshot): byte { U8(s.width) }

  /** `first_page = window_y1 / 8`. */
  function FirstPage(s: Snapshot): byte { U8(CDiv8(s.y1)) }

  /** `last_page = (window_y2 + 7) / 8`, as written in the code. */
  function LastPage(s: Snapshot): byte { U8(CDiv8(s.y2 + 7)) }

  /** `page_start = min(bytes_per_page, window_x1)`: clamped from above only. */
  function PageStart(s: Snapshot): byte { U8(Min(BytesPerPage(s), s.x1)) }

  /** `page_end = max(0, window_x2)`: clamped from below only. */
  function PageEnd(s: Snapshot): byte { U8(Max(0, s.x2)) }

  /** The largest data write: 128 on SPI, the adapter buffer less the marker
      byte on I2C. */
  function MaxBuff(t: Transport): byte
  {
    if t.I2C? then U8(t.maxBufferSize - 1) else SPI_MAX_BUFF
  }

  /** The bytes that go before each data write on the bus. */
  function DataPrefix(t: Transport): seq<byte>
  {
    if t.I2C? then [DATA_MARKER] else []
  }

  /** The column address the page command triplet selects. */
  function ColumnAddress(s: Snapshot): nat { PageStart(s) + s.columnOffset }

  /** The three-byte addressing command sent before page `p`'s data: select
      page `p + page_offset`, then the high and the low nibble of the start
      column plus `column_offset`. */
  function PageCommand(s: Snapshot, p: nat): (cmd: seq<byte>)
    ensures |cmd| == 3
    ensures p + s.pageOffset < 0x50 ==> cmd[0] == SETPAGESTART + p + s.pageOffset
    ensures ColumnAddress(s) < 256 ==>
              SETHIGHCOLUMN <= cmd[1] < SETHIGHCOLUMN + 16 &&
              SETLOWCOLUMN <= cmd[2] < SETLOWCOLUMN + 16 &&
              16 * (cmd[1] - SETHIGHCOLUMN) + (cmd[2] - SETLOWCOLUMN) == ColumnAddress(s)
  {
    var c := ColumnAddress(s);
    [U8(SETPAGESTART + p + s.pageOffset), U8(0x10 + c / 16), c % 16]
  }

  /** The column range fits every page and can be sent: it is at most one
      past empty, ends inside the page, and a non-empty range has a
      positive chunk limit (otherwise the chunk loop never ends). */
  ghost predicate ColumnsFit(s: Snapshot)
  {
    PageStart(s) <= PageEnd(s) + 1 && PageEnd(s) < s.width &&
    (PageStart(s) <= PageEnd(s) ==> MaxBuff(s.transport) >= 1)
  }

  /** What `display()` needs of its state: WIDTH fits `bytes_per_page`, the
      buffer holds every page, and if any page is visited then the visited
      pages exist and the column range fits. */
  ghost predicate FlushSafe(s: Snapshot, bufLen: nat)
  {
    s.width < 256 && bufLen == s.width * s.pages &&
    (FirstPage(s) < LastPage(s) ==> LastPage(s) <= s.pages && ColumnsFit(s))
  }

  /** Where page `p` starts in the page-major framebuffer. */
  function RowBase(s: Snapshot, p: nat): nat { p * s.width }

  lemma RowInBuffer(s: Snapshot, p: nat, x: nat)
    requires p < s.pages && x < s.width
    ensures RowBase(s, p) + x < s.width * s.pages
  {
    MulMonotone(p + 1, s.pages, s.width);
    assert (p + 1) * s.width == RowBase(s, p) + s.width;
  }

  /** The framebuffer byte of page `p`, column `x`: eight stacked pixels. */
  function Pixel(s: Snapshot, buf: seq<byte>, p: nat, x: nat): byte
    requires p < s.pages && x < s.width && |buf| == s.width * s.pages
  {
    RowInBuffer(s, p, x);
    buf[RowBase(s, p) + x]
  }

  lemma MulMonotone(a: nat, b: nat, c: nat)
    requires a <= b
    ensures a * c <= b * c
  {
  }

  /** Page `p`'s dirty bytes: columns `page_start` to `page_end` inclusive,
      the same for every page. */
  function Row(s: Snapshot, buf: seq<byte>, p: nat): (row: seq<byte>)
    requires p < s.pages && ColumnsFit(s) && |buf| == s.width * s.pages
    ensures |row| == PageEnd(s) + 1 - PageStart(s)
    ensures forall i :: 0 <= i < |row| ==> row[i] == Pixel(s, buf, p, PageStart(s) + i)
  {
    RowInBuffer(s, p, PageEnd(s));
    buf[RowBase(s, p) + PageStart(s) .. RowBase(s, p) + PageEnd(s) + 1]
  }

  /** The chunked writes of `bs`: each takes `min(remaining, m)` bytes. */
  function Chunks(prefix: seq<byte>, bs: seq<byte>, m: nat): seq<Event>
    requires m >= 1 || bs == []
    decreases |bs|
  {
    if bs == [] then []
    else
      var k := Min(|bs|, m);
      [Data(prefix, bs[..k])] + Chunks(prefix, bs[k..], m)
  }

  /** The events for one page: its addressing triplet, then its chunks. */
  function PageEvents(s: Snapshot, buf: seq<byte>, p: nat): seq<Event>
    requires p < s.pages && ColumnsFit(s) && |buf| == s.width * s.pages
  {
    [Cmd(PageCommand(s, p))] +
    Chunks(DataPrefix(s.transport), Row(s, buf, p), MaxBuff(s.transport))
  }

  /** The events for pages `from` up to but excluding `to`, in ascending order. */
  function PagesEvents(s: Snapshot, buf: seq<byte>, lo: nat, hi: nat): seq<Event>
    requires lo < hi ==> hi <= s.pages && ColumnsFit(s)
    requires |buf| == s.width * s.pages
    decreases hi
  {
    if hi <= lo then []
    else PagesEvents(s, buf, lo, hi - 1) + PageEvents(s, buf, hi - 1)
  }

  /** One more turn of the page loop appends that page's events. */
  lemma PagesEventsStep(s: Snapshot, buf: seq<byte>, lo: nat, hi: nat, before: seq<Event>)
    requires lo <= hi < s.pages && ColumnsFit(s) && |buf| == s.width * s.pages
    ensures before + PagesEvents(s, buf, lo, hi) + PageEvents(s, buf, hi) ==
            before + PagesEvents(s, buf, lo, hi + 1)
  {
  }

  /** What happens on the bus before the page loop. */
  function Prologue(t: Transport): seq<Event>
  {
    if t.I2C? then [SetSpeed(t.preclk)] else []
  }

  /** What happens on the bus after the page loop. */
  function Epilogue(t: Transport): seq<Event>
  {
    if t.I2C? then [SetSpeed(t.postclk)] else [Cmd([NOP])]
  }

  /** Everything `display()` puts on the bus. */
  function FlushTrace(s: Snapshot, buf: seq<byte>): seq<Event>
    requires FlushSafe(s, |buf|)
  {
    Prologue(s.transport) +
    PagesEvents(s, buf, FirstPage(s), LastPage(s)) +
    Epilogue(s.transport)
  }

  /** Re-bracketing of a trace made of four parts. */
  lemma AppendAssoc(a: seq<Event>, b: seq<Event>, c: seq<Event>, d: seq<Event>)
    ensures a + b + c + d == a + (b + c + d)
  {
  }

  /** The snapshot after `display()`: only the window changes. */
  function AfterFlush(s: Snapshot): (s': Snapshot)
    ensures s'.x1 > s'.x2 && s'.y1 > s'.y2
    ensures s' == s.(x1 := s'.x1, y1 := s'.y1, x2 := s'.x2, y2 := s'.y2)
  {
    s.(x1 := RESET_X1, y1 := RESET_Y1, x2 := RESET_X2, y2 := RESET_Y2)
  }

  // ---------------------------------------------------------------------
  // Projections of a trace.

  /** The command lists of a trace, in order. */
  function Commands(es: seq<Event>): seq<seq<byte>>
  {
    if es == [] then []
    else (if es[0].Cmd? then [es[0].bytes] else []) + Commands(es[1..])
  }

  /** The payload bytes of a trace's data writes, concatenated in order. */
  function DataBytes(es: seq<Event>): seq<byte>
  {
    if es == [] then []
    else (if es[0].Data? then es[0].payload else []) + DataBytes(es[1..])
  }

  lemma {:induction false} CommandsAppend(a: seq<Event>, b: seq<Event>)
    ensures Commands(a + b) == Commands(a) + Commands(b)
  {
    if a == [] {
      assert a + b == b;
    } else {
      assert (a + b)[1..] == a[1..] + b;
      CommandsAppend(a[1..], b);
    }
  }

  lemma {:induction false} DataBytesAppend(a: seq<Event>, b: seq<Event>)
    ensures DataBytes(a + b) == DataBytes(a) + DataBytes(b)
  {
    if a == [] {
      assert a + b == b;
    } else {
      assert (a + b)[1..] == a[1..] + b;
      DataBytesAppend(a[1..], b);
    }
  }

  // ---------------------------------------------------------------------
  // Chunking.

  /** The chunks, concatenated in order, are the bytes being sent. */
  lemma {:induction false} ChunksFlatten(prefix: seq<byte>, bs: seq<byte>, m: nat)
    requires m >= 1 || bs == []
    ensures DataBytes(Chunks(prefix, bs, m)) == bs
    ensures Commands(Chunks(prefix, bs, m)) == []
    decreases |bs|
  {
    if bs != [] {
      var k := Min(|bs|, m);
      var rest := Chunks(prefix, bs[k..], m);
      ChunksFlatten(prefix, bs[k..], m);
      assert ([Data(prefix, bs[..k])] + rest)[1..] == rest;
      assert bs[..k] + bs[k..] == bs;
    }
  }

  /** One turn of the chunk loop: the first chunk of the `n` bytes from
      `i` on takes `min(n, m)` of them and the rest follow. */
  lemma ChunksStep(prefix: seq<byte>, bs: seq<byte>, i: nat, n: nat, m: nat)
    requires i + n <= |bs| && n > 0 && m >= 1
    ensures Chunks(prefix, bs[i .. i + n], m) ==
              [Data(prefix, bs[i .. i + Min(n, m)])] + Chunks(prefix, bs[i + Min(n, m) .. i + n], m)
  {
    var part := bs[i .. i + n];
    assert part[..Min(n, m)] == bs[i .. i + Min(n, m)];
    assert part[Min(n, m)..] == bs[i + Min(n, m) .. i + n];
  }

  /** The chunk loop's invariant, kept by one turn: what was sent so far
      plus the chunks of what remains does not change. */
  lemma ChunksLoopStep(prefix: seq<byte>, bs: seq<byte>, i: nat, n: nat, m: nat, sent: seq<Event>)
    requires i + n <= |bs| && n > 0 && m >= 1
    ensures sent + Chunks(prefix, bs[i .. i + n], m) ==
            (sent + [Data(prefix, bs[i .. i + Min(n, m)])]) + Chunks(prefix, bs[i + Min(n, m) .. i + n], m)
  {
    ChunksStep(prefix, bs, i, n, m);
  }

  /** A range of `n` bytes goes out in `ceil(n / m)` chunks. */
  lemma ChunksCount(prefix: seq<byte>, bs: seq<byte>, m: nat)
    requires m >= 1
    ensures |Chunks(prefix, bs, m)| == (|bs| + m - 1) / m
  {
    var c := |Chunks(prefix, bs, m)|;
    ChunksCountBounds(prefix, bs, m);
    if bs == [] {
      DivUnique(|bs| + m - 1, m, 0, m - 1);
    } else {
      DivUnique(|bs| + m - 1, m, c, |bs| + m - 1 - m * c);
    }
  }

  /** The chunk count `c` is the least with `c * m >= n`. */
  lemma {:induction false} ChunksCountBounds(prefix: seq<byte>, bs: seq<byte>, m: nat)
    requires m >= 1
    ensures bs == [] <==> Chunks(prefix, bs, m) == []
    ensures |bs| <= |Chunks(prefix, bs, m)| * m
    ensures bs != [] ==> (|Chunks(prefix, bs, m)| - 1) * m < |bs|
    decreases |bs|
  {
    if bs != [] {
      var k := Min(|bs|, m);
      var c' := |Chunks(prefix, bs[k..], m)|;
      assert |Chunks(prefix, bs, m)| == c' + 1;
      if |bs| <= m {
        assert bs[k..] == [];
        assert c' == 0;
      } else {
        ChunksCountBounds(prefix, bs[k..], m);
        var cm := c' * m;
        assert |bs| - m <= cm;
        MulStep(c', m);
        assert (c' + 1) * m == cm + m;
        assert (c' - 1) * m == cm - m;
      }
    }
  }

  /** Division is determined by its quotient-remainder decomposition. */
  lemma DivUnique(n: int, m: int, q: int, r: int)
    requires m >= 1 && 0 <= r < m && n == m * q + r
    ensures n / m == q
  {
    var q', r' := n / m, n % m;
    assert m * (q - q') == r' - r by {
      assert m * (q - q') == m * q - m * q';
    }
    MulSign(m, q - q');
  }

  lemma MulStep(c: int, m: int)
    ensures (c + 1) * m == c * m + m && (c - 1) * m == c * m - m
  {
  }

  lemma MulSign(m: int, d: int)
    requires m >= 1
    ensures d >= 1 ==> m * d >= m
    ensures d <= -1 ==> m * d <= -m
  {
  }

  /** Every chunk is a data write with the transport's marker and between
      1 and `m` bytes; every chunk but the last has exactly `m` bytes. */
  lemma {:induction false} ChunksShape(prefix: seq<byte>, bs: seq<byte>, m: nat, i: nat)
    requires m >= 1 || bs == []
    requires i < |Chunks(prefix, bs, m)|
    ensures Chunks(prefix, bs, m)[i].Data?
    ensures Chunks(prefix, bs, m)[i].prefix == prefix
    ensures 1 <= |Chunks(prefix, bs, m)[i].payload| <= m
    ensures i + 1 < |Chunks(prefix, bs, m)| ==> |Chunks(prefix, bs, m)[i].payload| == m
    decreases |bs|
  {
    var k := Min(|bs|, m);
    if i > 0 {
      ChunksShape(prefix, bs[k..], m, i - 1);
    } else if 1 < |Chunks(prefix, bs, m)| {
      assert bs[k..] != [];
    }
  }

  // ---------------------------------------------------------------------
  // Pages.

  /** For one page, exactly one command list goes out, its addressing
      triplet, and it comes first; the data after it is the page's dirty
      range. */
  lemma PageEventsShape(s: Snapshot, buf: seq<byte>, p: nat)
    requires p < s.pages && ColumnsFit(s) && |buf| == s.width * s.pages
    ensures PageEvents(s, buf, p)[0] == Cmd(PageCommand(s, p))
    ensures Commands(PageEvents(s, buf, p)) == [PageCommand(s, p)]
    ensures DataBytes(PageEvents(s, buf, p)) == Row(s, buf, p)
  {
    var prefix, m := DataPrefix(s.transport), MaxBuff(s.transport);
    var chunks := Chunks(prefix, Row(s, buf, p), m);
    ChunksFlatten(prefix, Row(s, buf, p), m);
    CommandsAppend([Cmd(PageCommand(s, p))], chunks);
    DataBytesAppend([Cmd(PageCommand(s, p))], chunks);
  }

  /** Pages are visited in ascending order, exactly those from `from` up to
      `to`: the i-th command list is the triplet for page `from + i`, and the
      data is each visited page's dirty range in turn. */
  lemma {:induction false} PagesVisited(s: Snapshot, buf: seq<byte>, lo: nat, hi: nat)
    requires lo < hi ==> hi <= s.pages && ColumnsFit(s)
    requires |buf| == s.width * s.pages
    ensures |Commands(PagesEvents(s, buf, lo, hi))| == Max(0, hi - lo)
    ensures forall i :: 0 <= i < hi - lo ==>
              Commands(PagesEvents(s, buf, lo, hi))[i] == PageCommand(s, lo + i)
    ensures hi <= lo ==> DataBytes(PagesEvents(s, buf, lo, hi)) == []
    ensures lo < hi ==>
              DataBytes(PagesEvents(s, buf, lo, hi)) ==
              DataBytes(PagesEvents(s, buf, lo, hi - 1)) + Row(s, buf, hi - 1)
    decreases hi
  {
    if lo < hi {
      var before := PagesEvents(s, buf, lo, hi - 1);
      var page := PageEvents(s, buf, hi - 1);
      assert PagesEvents(s, buf, lo, hi) == before + page;
      PagesVisited(s, buf, lo, hi - 1);
      PageEventsShape(s, buf, hi - 1);
      CommandsAppend(before, page);
      DataBytesAppend(before, page);
      var cmds := Commands(PagesEvents(s, buf, lo, hi));
      assert cmds == Commands(before) + [PageCommand(s, hi - 1)];
      forall i | 0 <= i < hi - lo
        ensures cmds[i] == PageCommand(s, lo + i)
      {
        if i < hi - 1 - lo {
          assert cmds[i] == Commands(before)[i];
        }
      }
    }
  }

  /** On a 128x64 panel, a window over columns 10 to 20 of rows 0 to 7
      flushes page 0 only, and 11 bytes of it: buffer bytes 10 to 20. */
  lemma EightRowWindowExample(s: Snapshot, buf: seq<byte>)
    requires s.width == 128 && s.pages == 8 && |buf| == 1024
    requires s.x1 == 10 && s.y1 == 0 && s.x2 == 20 && s.y2 == 7
    requires MaxBuff(s.transport) >= 1
    ensures FirstPage(s) == 0 && LastPage(s) == 1
    ensures PageStart(s) == 10 && PageEnd(s) == 20 && ColumnsFit(s)
    ensures Row(s, buf, 0) == buf[10 .. 21]
  {
  }

  /** A window whose last row is at most 0, in particular the reset window
      with `window_y2 == -1`, visits no page, wherever it starts. */
  lemma NoRowsNoPages(s: Snapshot)
    requires -7 <= s.y2 <= 0
    ensures LastPage(s) == 0 && FirstPage(s) >= LastPage(s)
  {
  }

  /** An inverted window is not always empty to the flush: with rows 2 to 1
      page 0 is still sent. */
  lemma InvertedWindowVisitsPage(s: Snapshot)
    requires s.y1 == 2 && s.y2 == 1
    ensures FirstPage(s) == 0 && LastPage(s) == 1
  {
  }

  /** With the window's rows 9 to 19 dirty, pages 1 and 2 are flushed and no
      others. */
  lemma PageMappingExample(s: Snapshot)
    requires s.y1 == 9 && s.y2 == 19
    ensures FirstPage(s) == 1 && LastPage(s) == 3
  {
  }

  // ---------------------------------------------------------------------
  // The whole flush.

  /** On I2C the clock goes to the pre-clock first and to the post-clock
      last, with no other speed change; on SPI the last event is the one
      NOP command and the speed is never changed. */
  lemma FlushFraming(s: Snapshot, buf: seq<byte>)
    requires FlushSafe(s, |buf|)
    ensures s.transport.I2C? ==>
              FlushTrace(s, buf)[0] == SetSpeed(s.transport.preclk) &&
              FlushTrace(s, buf)[|FlushTrace(s, buf)| - 1] == SetSpeed(s.transport.postclk) &&
              forall i :: 0 < i < |FlushTrace(s, buf)| - 1 ==> !FlushTrace(s, buf)[i].SetSpeed?
    ensures s.transport.Spi? ==>
              FlushTrace(s, buf)[|FlushTrace(s, buf)| - 1] == Cmd([NOP]) &&
              forall i :: 0 <= i < |FlushTrace(s, buf)| ==> !FlushTrace(s, buf)[i].SetSpeed?
  {
    var pages := PagesEvents(s, buf, FirstPage(s), LastPage(s));
    NoSpeedChange(s, buf, FirstPage(s), LastPage(s));
    assert FlushTrace(s, buf) == Prologue(s.transport) + pages + Epilogue(s.transport);
  }

  /** The page loop never changes the bus speed. */
  lemma {:induction false} NoSpeedChange(s: Snapshot, buf: seq<byte>, lo: nat, hi: nat)
    requires lo < hi ==> hi <= s.pages && ColumnsFit(s)
    requires |buf| == s.width * s.pages
    ensures forall i :: 0 <= i < |PagesEvents(s, buf, lo, hi)| ==>
              !PagesEvents(s, buf, lo, hi)[i].SetSpeed?
    decreases hi
  {
    if lo < hi {
      NoSpeedChange(s, buf, lo, hi - 1);
      var chunks := Chunks(DataPrefix(s.transport), Row(s, buf, hi - 1), MaxBuff(s.transport));
      forall i | 0 <= i < |chunks| ensures chunks[i].Data? {
        ChunksShape(DataPrefix(s.transport), Row(s, buf, hi - 1), MaxBuff(s.transport), i);
      }
    }
  }

  /** Once `display()` has reset the window, a second `display()` visits no
      page: it sends no addressing command and no data, only the framing. */
  lemma SecondFlushIsEmpty(s: Snapshot, buf: seq<byte>)
    requires s.width < 256 && |buf| == s.width * s.pages
    ensures FlushSafe(AfterFlush(s), |buf|)
    ensures FirstPage(AfterFlush(s)) == 128 && LastPage(AfterFlush(s)) == 0
    ensures FlushTrace(AfterFlush(s), buf) == Prologue(s.transport) + Epilogue(s.transport)
    ensures DataBytes(FlushTrace(AfterFlush(s), buf)) == []
    ensures Commands(FlushTrace(AfterFlush(s), buf)) == (if s.transport.Spi? then [[NOP]] else [])
  {
    var t := FlushTrace(AfterFlush(s), buf);
    assert t == Prologue(s.transport) + Epilogue(s.transport);
    CommandsAppend(Prologue(s.transport), Epilogue(s.transport));
    DataBytesAppend(Prologue(s.transport), Epilogue(s.transport));
  }

  /** The `bytes_remaining` arithmetic of the page loop, each step assigned
      back to a uint8, gives the length of the dirty range. */
  lemma BytesRemainingExact(s: Snapshot)
    requires s.width < 256 && ColumnsFit(s)
    ensures U8(U8(BytesPerPage(s) - PageStart(s)) - ((s.width - 1) - PageEnd(s)))
            == PageEnd(s) + 1 - PageStart(s)
  {
  }

  // ---------------------------------------------------------------------
  // The last-page formula.

  /** Row `y`'s page is among those `display()` visits. */
  ghost predicate RowVisited(first: int, last: int, y: int)
  {
    first <= PageOf(y) < last
  }

  /** As written, the page holding the window's last row is visited exactly
      when that row is not the first row of its page. */
  lemma LastPageAsWritten(s: Snapshot)
    requires 0 <= s.y1 <= s.y2 < 2041
    ensures RowVisited(FirstPage(s), LastPage(s), s.y2) <==> s.y2 % 8 != 0
  {
  }

  /** A one-row window on row 8 is not flushed at all. */
  lemma LastPageMissesRowEight(s: Snapshot)
    requires s.y1 == 8 && s.y2 == 8
    ensures FirstPage(s) == LastPage(s) == 1
    ensures !RowVisited(FirstPage(s), LastPage(s), 8)
  {
  }

  /** The last page as `ceil((window_y2 + 1) / 8)`. */
  function LastPageFixed(s: Snapshot): byte { U8(CDiv8(s.y2 + 8)) }

  /** The page that holds pixel row `y`. */
  function PageOf(y: int): int { y / 8 }

  /** Page `p` holds a row of the window. */
  ghost predicate PageHoldsRow(s: Snapshot, p: int)
  {
    exists y :: s.y1 <= y <= s.y2 && PageOf(y) == p
  }

  /** With the corrected formula the visited pages are exactly those that
      hold a row of the window: every row from y1 to y2 is visited, and
      every visited page holds one of those rows. */
  lemma LastPageFixedCovers(s: Snapshot)
    requires 0 <= s.y1 <= s.y2 < 2040
    ensures forall y :: s.y1 <= y <= s.y2 ==> RowVisited(FirstPage(s), LastPageFixed(s), y)
    ensures forall p :: FirstPage(s) <= p < LastPageFixed(s) ==> PageHoldsRow(s, p)
  {
    forall p | FirstPage(s) <= p < LastPageFixed(s)
      ensures PageHoldsRow(s, p)
    {
      var y := if p == FirstPage(s) then s.y1 else 8 * p;
      assert s.y1 <= y <= s.y2 && PageOf(y) == p;
    }
  }

  /** What a flush with the corrected last page needs of its state. */
  ghost predicate FlushSafeFixed(s: Snapshot, bufLen: nat)
  {
    s.width < 256 && bufLen == s.width * s.pages &&
    (FirstPage(s) < LastPageFixed(s) ==> LastPageFixed(s) <= s.pages && ColumnsFit(s))
  }

  /** The flush trace with the corrected last page. */
  function FlushTraceFixed(s: Snapshot, buf: seq<byte>): seq<Event>
    requires FlushSafeFixed(s, |buf|)
  {
    Prologue(s.transport) +
    PagesEvents(s, buf, FirstPage(s), LastPageFixed(s)) +
    Epilogue(s.transport)
  }

  /** The corrected formula agrees with the written one on the empty window
      and whenever the last row is not the first row of its page. */
  lemma LastPageFixedAgrees(s: Snapshot)
    requires -1 <= s.y2 < 2040
    ensures LastPageFixed(s) == LastPage(s) <==> (s.y2 == -1 || s.y2 % 8 != 0)
  {
  }
}
