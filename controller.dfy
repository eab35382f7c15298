/** A reference model of the display controller's side of the bus, in page
    addressing mode, used to state what a flush achieves: replaying the
    trace leaves the dirty region of display RAM equal to the framebuffer
    and every other cell as it was. Only the addressing commands are
    interpreted (page select B0h-B7h, column high nibble 10h-1Fh, column low
    nibble 00h-0Fh); every other command byte leaves the addressing state
    alone, and after each data byte the column pointer advances. */
module Controller {
  import opened Ssd1303Header
  import opened FlushSpec

  datatype Option<T> = None | Some(value: T)

  /** The selected page, the column pointer and display RAM, keyed by
      (page, column); a cell never written is absent. */
  datatype Ram = Ram(page: int, column: int, cells: map<(int, int), byte>)

  /** Display RAM at (page, column), if it was ever written. */
  function Cell(m: map<(int, int), byte>, pg: int, c: int): Option<byte>
  {
    if (pg, c) in m then Some(m[(pg, c)]) else None
  }

  /** The effect of one command byte on the addressing state. */
  function CommandByte(r: Ram, b: byte): Ram
  {
    if SETLOWCOLUMN <= b < SETLOWCOLUMN + 16 then
      r.(column := r.column - r.column % 16 + (b - SETLOWCOLUMN))
    else if SETHIGHCOLUMN <= b < SETHIGHCOLUMN + 16 then
      r.(column := 16 * (b - SETHIGHCOLUMN) + r.column % 16)
    else if SETPAGESTART <= b < SETPAGESTART + 8 then
      r.(page := b - SETPAGESTART)
    else r
  }

  function CommandList(r: Ram, bs: seq<byte>): Ram
    decreases |bs|
  {
    if bs == [] then r else CommandList(CommandByte(r, bs[0]), bs[1..])
  }

  /** Data bytes land at the pointer, which advances by one each. */
  function WriteData(r: Ram, bs: seq<byte>): Ram
    decreases |bs|
  {
    if bs == [] then r
    else WriteData(r.(cells := r.cells[(r.page, r.column) := bs[0]], column := r.column + 1), bs[1..])
  }

  function Step(r: Ram, e: Event): Ram
  {
    match e
    case Cmd(bs) => CommandList(r, bs)
    case Data(_, bs) => WriteData(r, bs)
    case SetSpeed(_) => r
  }

  /** The controller state after a whole trace. */
  function Replay(r: Ram, es: seq<Event>): Ram
    decreases |es|
  {
    if es == [] then r else Replay(Step(r, es[0]), es[1..])
  }

  lemma {:induction false} ReplayAppend(r: Ram, a: seq<Event>, b: seq<Event>)
    ensures Replay(r, a + b) == Replay(Replay(r, a), b)
    decreases |a|
  {
    if a == [] {
      assert a + b == b;
    } else {
      assert (a + b)[1..] == a[1..] + b;
      ReplayAppend(Step(r, a[0]), a[1..], b);
    }
  }

  lemma {:induction false} WriteDataAppend(r: Ram, a: seq<byte>, b: seq<byte>)
    ensures WriteData(r, a + b) == WriteData(WriteData(r, a), b)
    decreases |a|
  {
    if a == [] {
      assert a + b == b;
    } else {
      assert (a + b)[1..] == a[1..] + b;
      WriteDataAppend(r.(cells := r.cells[(r.page, r.column) := a[0]], column := r.column + 1), a[1..], b);
    }
  }

  /** Writing `bs` fills the cells from the pointer on along the selected
      page, leaves every other cell alone and advances the pointer. */
  lemma {:induction false} WriteDataEffect(r: Ram, bs: seq<byte>)
    ensures WriteData(r, bs).page == r.page
    ensures WriteData(r, bs).column == r.column + |bs|
    ensures forall pg, c :: Cell(WriteData(r, bs).cells, pg, c) ==
              if pg == r.page && r.column <= c < r.column + |bs|
              then Some(bs[c - r.column]) else Cell(r.cells, pg, c)
    decreases |bs|
  {
    if bs != [] {
      var r1 := r.(cells := r.cells[(r.page, r.column) := bs[0]], column := r.column + 1);
      WriteDataEffect(r1, bs[1..]);
      forall pg, c
        ensures Cell(WriteData(r, bs).cells, pg, c) ==
                  if pg == r.page && r.column <= c < r.column + |bs|
                  then Some(bs[c - r.column]) else Cell(r.cells, pg, c)
      {
        if pg == r.page && r.column + 1 <= c < r.column + |bs| {
          assert bs[1..][c - r1.column] == bs[c - r.column];
        }
      }
    }
  }

  /** Sending a sequence of chunks writes their bytes in order, as one write
      of the whole range would. */
  lemma {:induction false} ReplayChunks(r: Ram, prefix: seq<byte>, bs: seq<byte>, m: nat)
    requires m >= 1 || bs == []
    ensures Replay(r, Chunks(prefix, bs, m)) == WriteData(r, bs)
    decreases |bs|
  {
    if bs != [] {
      var k := Min(|bs|, m);
      var first := Data(prefix, bs[..k]);
      var rest := Chunks(prefix, bs[k..], m);
      assert Chunks(prefix, bs, m) == [first] + rest;
      assert ([first] + rest)[1..] == rest;
      ReplayChunks(WriteData(r, bs[..k]), prefix, bs[k..], m);
      WriteDataAppend(r, bs[..k], bs[k..]);
      assert bs[..k] + bs[k..] == bs;
    }
  }

  /** The addressing triplet selects page `p + page_offset` and puts the
      column pointer at `page_start + column_offset`, whatever the state
      before; display RAM is untouched. */
  lemma PageCommandSelects(r: Ram, s: Snapshot, p: nat)
    requires p + s.pageOffset < 8 && ColumnAddress(s) < 256
    ensures CommandList(r, PageCommand(s, p)) ==
              r.(page := p + s.pageOffset, column := ColumnAddress(s))
  {
    var cmd := PageCommand(s, p);
    var c := ColumnAddress(s);
    var r1 := CommandByte(r, cmd[0]);
    assert r1 == r.(page := p + s.pageOffset);
    var r2 := CommandByte(r1, cmd[1]);
    assert r2 == r1.(column := 16 * (c / 16) + r.column % 16);
    var r3 := CommandByte(r2, cmd[2]);
    assert r3 == r2.(column := 16 * (c / 16) + c % 16);
    assert CommandList(r, cmd) == CommandList(r1, cmd[1..]);
    assert CommandList(r1, cmd[1..]) == CommandList(r2, cmd[2..]);
    assert CommandList(r2, cmd[2..]) == CommandList(r3, []);
  }

  /** The dirty region of pages `lo` to `hi`, in controller coordinates. */
  ghost predicate InRegion(s: Snapshot, lo: nat, hi: nat, pg: int, c: int)
  {
    lo <= pg - s.pageOffset < hi && PageStart(s) <= c - s.columnOffset <= PageEnd(s)
  }

  /** What the controller is to hold after pages `lo` to `hi` were sent:
      the framebuffer inside the region, the old content outside it. */
  ghost predicate Flushed(s: Snapshot, buf: seq<byte>, lo: nat, hi: nat,
                          before: map<(int, int), byte>, after: map<(int, int), byte>)
    requires lo < hi ==> hi <= s.pages && ColumnsFit(s)
    requires |buf| == s.width * s.pages
  {
    forall pg, c :: Cell(after, pg, c) ==
      if InRegion(s, lo, hi, pg, c)
      then Some(Pixel(s, buf, pg - s.pageOffset, c - s.columnOffset))
      else Cell(before, pg, c)
  }

  /** One page's events write exactly that page's dirty range. */
  lemma ReplayPage(r: Ram, s: Snapshot, buf: seq<byte>, p: nat)
    requires p < s.pages && ColumnsFit(s) && |buf| == s.width * s.pages
    requires p + s.pageOffset < 8 && ColumnAddress(s) < 256
    ensures Flushed(s, buf, p, p + 1, r.cells, Replay(r, PageEvents(s, buf, p)).cells)
  {
    var cmd := [Cmd(PageCommand(s, p))];
    var row := Row(s, buf, p);
    var chunks := Chunks(DataPrefix(s.transport), row, MaxBuff(s.transport));
    var r1 := r.(page := p + s.pageOffset, column := ColumnAddress(s));
    ReplayAppend(r, cmd, chunks);
    PageCommandSelects(r, s, p);
    assert Replay(r, cmd) == r1;
    ReplayChunks(r1, DataPrefix(s.transport), row, MaxBuff(s.transport));
    WriteDataEffect(r1, row);
    var after := Replay(r, PageEvents(s, buf, p)).cells;
    assert after == WriteData(r1, row).cells;
    forall pg, c
      ensures Cell(after, pg, c) ==
        if InRegion(s, p, p + 1, pg, c)
        then Some(Pixel(s, buf, pg - s.pageOffset, c - s.columnOffset))
        else Cell(r.cells, pg, c)
    {
      if InRegion(s, p, p + 1, pg, c) {
        assert row[c - r1.column] == Pixel(s, buf, p, PageStart(s) + (c - r1.column));
      }
    }
  }

  /** Pages `lo` to `hi` write exactly the dirty region of those pages. */
  lemma {:induction false} ReplayPages(r: Ram, s: Snapshot, buf: seq<byte>, lo: nat, hi: nat)
    requires lo < hi ==> hi <= s.pages && ColumnsFit(s)
    requires lo < hi ==> hi + s.pageOffset <= 8 && ColumnAddress(s) < 256
    requires |buf| == s.width * s.pages
    ensures Flushed(s, buf, lo, hi, r.cells, Replay(r, PagesEvents(s, buf, lo, hi)).cells)
    decreases hi
  {
    if lo < hi {
      var before := PagesEvents(s, buf, lo, hi - 1);
      var page := PageEvents(s, buf, hi - 1);
      var mid := Replay(r, before);
      assert PagesEvents(s, buf, lo, hi) == before + page;
      ReplayAppend(r, before, page);
      ReplayPages(r, s, buf, lo, hi - 1);
      ReplayPage(mid, s, buf, hi - 1);
    }
  }

  /** The effect of a whole `display()` on the controller: the cells of the
      visited pages between `page_start` and `page_end` (shifted by the
      offsets) now hold the framebuffer's bytes, and no other cell changed. */
  lemma FlushWritesDirtyRegion(r: Ram, s: Snapshot, buf: seq<byte>)
    requires FlushSafe(s, |buf|)
    requires FirstPage(s) < LastPage(s) ==>
               LastPage(s) + s.pageOffset <= 8 && ColumnAddress(s) < 256
    ensures Flushed(s, buf, FirstPage(s), LastPage(s), r.cells, Replay(r, FlushTrace(s, buf)).cells)
  {
    var pro, pages, epi :=
      Prologue(s.transport), PagesEvents(s, buf, FirstPage(s), LastPage(s)), Epilogue(s.transport);
    ReplayAppend(r, pro + pages, epi);
    ReplayAppend(r, pro, pages);
    ReplayPages(Replay(r, pro), s, buf, FirstPage(s), LastPage(s));
    FramingKeepsRam(r, s.transport);
    FramingKeepsRam(Replay(r, pro + pages), s.transport);
  }

  /** The cell of window row `y` and dirty column `c`, in controller
      coordinates, lies in the region a corrected flush writes. */
  ghost predicate WindowCellWritten(s: Snapshot, y: int, c: int)
  {
    InRegion(s, FirstPage(s), LastPageFixed(s), PageOf(y) + s.pageOffset, c + s.columnOffset)
  }

  /** With the corrected last page a flush writes every pixel row of the
      window: the cells of each row's page and each dirty column lie in the
      region written, which holds the framebuffer, and nothing else changes. */
  lemma FixedFlushWritesWindow(r: Ram, s: Snapshot, buf: seq<byte>)
    requires FlushSafeFixed(s, |buf|)
    requires 0 <= s.y1 <= s.y2 < 2040
    requires LastPageFixed(s) + s.pageOffset <= 8 && ColumnAddress(s) < 256
    ensures Flushed(s, buf, FirstPage(s), LastPageFixed(s), r.cells, Replay(r, FlushTraceFixed(s, buf)).cells)
    ensures forall y, c :: s.y1 <= y <= s.y2 && PageStart(s) <= c <= PageEnd(s) ==>
              WindowCellWritten(s, y, c)
  {
    FixedFlushRam(r, s, buf);
    LastPageFixedCovers(s);
  }

  /** The corrected flush writes the region of its pages and nothing else. */
  lemma FixedFlushRam(r: Ram, s: Snapshot, buf: seq<byte>)
    requires FlushSafeFixed(s, |buf|)
    requires FirstPage(s) < LastPageFixed(s) ==>
               LastPageFixed(s) + s.pageOffset <= 8 && ColumnAddress(s) < 256
    ensures Flushed(s, buf, FirstPage(s), LastPageFixed(s), r.cells, Replay(r, FlushTraceFixed(s, buf)).cells)
  {
    var lo, hi := FirstPage(s), LastPageFixed(s);
    var pro, pages, epi := Prologue(s.transport), PagesEvents(s, buf, lo, hi), Epilogue(s.transport);
    ReplayAppend(r, pro + pages, epi);
    ReplayAppend(r, pro, pages);
    ReplayPages(Replay(r, pro), s, buf, lo, hi);
    FramingKeepsRam(r, s.transport);
    FramingKeepsRam(Replay(r, pro + pages), s.transport);
  }

  /** The clock changes and the NOP before and after the page loop leave
      display RAM alone. */
  lemma FramingKeepsRam(r: Ram, t: Transport)
    ensures Replay(r, Prologue(t)).cells == r.cells
    ensures Replay(r, Epilogue(t)).cells == r.cells
  {
    if t.Spi? {
      assert CommandList(r, [NOP]) == CommandList(CommandByte(r, NOP), []);
      assert Replay(r, Epilogue(t)) == Replay(CommandList(r, [NOP]), []);
    }
  }
}
