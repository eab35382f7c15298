# SSD1303 OLED driver: the dirty-window flush

A model of the SSD1303 driver class. The core is `SSD1303::display()`. It
turns the framebuffer's dirty rectangle into bus traffic. For each page
(8 stacked pixel rows) it sends a three-byte addressing command, then that
page's dirty columns in chunks of at most `maxbuff` bytes. Framing goes
around the page loop: clock changes on I2C, a trailing NOP on SPI. At the
end the dirty window is reset. The model also covers `begin()`, `sleep()`,
`wake()`, the opcode set, the `init_128x64` command table and the default
addressing offsets.

Files:

- `header.dfy` (module `Ssd1303Header`): the `byte` type, the opcodes, the
  128x64 init table and the default offsets.
- `flush.dfy` (module `FlushSpec`): bus events, the state a flush reads (a
  `Snapshot`), and every formula of `display()`. Each uint8 cast is written
  out as `U8`, and C's truncating division as `CDiv8`. `FlushTrace` is the
  whole bus trace as a function. The lemmas here cover page order,
  addressing bytes, chunk sizes and counts, framing, the reset window, and
  the last-page formula.
- `controller.dfy` (module `Controller`): a reference model of the
  controller. It interprets page select (B0h-B7h) and the column nibble
  commands, and writes data bytes into display RAM. Its theorem: replaying a
  flush leaves the dirty region equal to the framebuffer and every other
  cell unchanged.
- `driver.dfy` (module `Driver`): class `Ssd1303` holds the framebuffer
  `array`, the window fields, the offsets and a ghost `trace` of bus events.
  `Display` runs the code's nested loops over `ptr` and `bytes_remaining`.
  Its contract says the trace grows by exactly `FlushTrace` of the old
  state, and that the window is reset.

What the model takes as inputs rather than computing itself:

- The transport is a parameter: I2C with `maxBufferSize`, pre-clock and
  post-clock, or SPI.
- The outcomes of the base-class initialisation and of the init-list write
  are boolean parameters of `Begin`.

`display()` does not guard its uint8 arithmetic. `FlushSafe` holds the
preconditions that keep the model in bounds:

- WIDTH is below 256.
- The buffer holds `WIDTH * pages` bytes.
- When any page is visited: the visited pages exist, `page_start <=
  page_end + 1`, `page_end < WIDTH`, and a non-empty range has
  `maxbuff >= 1`.

Everything else (page bytes and column bytes cast to uint8, `min`/`max` on
the window) follows the code exactly.

Two behaviours of the code differ from the idealised flush, which sends
the pages holding rows `y1` to `y2` and nothing for an empty window. The
model follows the code in both:

- The last page is `(y2+7)/8`, not `ceil((y2+1)/8)`; see Findings.
- No page is sent for the reset window (`SecondFlushIsEmpty`,
  `NoRowsNoPages`). An arbitrary inverted window can still visit a page
  (`InvertedWindowVisitsPage`: rows 2 to 1 flush page 0).

## Model

| member | source | states |
|---|---|---|
| Ssd1303Header.InitTableFacts | SSD1303.h:65-86 | the init table is 31 bytes, so with the I2C command marker it fits 32; it opens with DISPLAYOFF and holds no DISPLAYON; it starts at column 0 (bytes 0x00, 0x10); multiplex parameter 0x3F; DC-DC parameter 0x8A\|1 = 0x8B |
| Driver.Ssd1303.constructor | SSD1303.h:59-60 | page and column offsets start at 0; buffer of `w * ceil(h/8)` bytes; nothing sent |
| Driver.Ssd1303.Begin | SSD1303.cpp:119-134 | base init failure returns false with nothing sent; init-list failure returns false after the list, offsets unchanged; otherwise column offset 2, page offset 0, DISPLAYON sent last, true returned |
| Driver.Ssd1303.Sleep | SSD1303.cpp:213 | appends exactly the command 0xAE, nothing else changes |
| Driver.Ssd1303.Wake | SSD1303.cpp:215 | appends exactly the command 0xAF, nothing else changes |
| Driver.Ssd1303.Display | SSD1303.cpp:148-211 | the bus trace grows by exactly `FlushTrace` of the state before the call; afterwards the window is the reset window and nothing else changed |
| Driver.Ssd1303.DirtyRange | SSD1303.cpp:154-160 | the loop bounds, computed with uint8 casts, are first page, last page, page start and page end of the state |
| Driver.Ssd1303.BeginTransfer | SSD1303.cpp:155-166 | `maxbuff` is 128 on SPI and `maxBufferSize()-1` (as a uint8) on I2C; on I2C the pre-loop clock is set first |
| Driver.Ssd1303.SendPage | SSD1303.cpp:169-194 | one turn of the page loop appends that page's addressing triplet and its chunked dirty range (`PageEvents`) |
| Driver.Ssd1303.WriteChunks | SSD1303.cpp:183-194 | the chunk loop, advancing `ptr` and decrementing `bytes_remaining`, appends exactly `Chunks` of the buffer range it starts at |
| Driver.Ssd1303.EndTransfer | SSD1303.cpp:197-204 | I2C restores the post-loop clock; SPI sends a single NOP |
| Driver.Ssd1303.ResetWindow | SSD1303.cpp:206-210 | the window becomes (1024, 1024, -1, -1), empty in both directions, with the rest of the state kept |
| FlushSpec.U8 | SSD1303.cpp:154-160 | a uint8 assignment keeps every value already in 0..255 |
| FlushSpec.CDiv8 | SSD1303.cpp:157-158 | division by 8 truncating toward zero: the floor for non-negative rows, the ceiling for negative ones |
| FlushSpec.PageCommand | SSD1303.cpp:177-180 | three bytes; the first is 0xB0 + p + page_offset; for a column address c below 256, 16 * (second - 0x10) + third == c |
| FlushSpec.Row | SSD1303.cpp:169-175 | the page's dirty range has page_end + 1 - page_start bytes; byte i is buffer[p * WIDTH + page_start + i], the same columns on every page |
| FlushSpec.BytesRemainingExact | SSD1303.cpp:169-175 | the two uint8 subtractions from `bytes_per_page` leave exactly the length of the dirty range |
| FlushSpec.ChunksFlatten | SSD1303.cpp:183-194 | the chunks concatenated in order are exactly the page range; the chunk loop sends no command |
| FlushSpec.ChunksShape | SSD1303.cpp:183-194 | every chunk is a data write with the transport's prefix (0x40 on I2C) of 1 to maxbuff bytes, and every chunk but the last has exactly maxbuff |
| FlushSpec.ChunksCount | SSD1303.cpp:183-194 | a range of N bytes goes out in ceil(N / maxbuff) chunks |
| FlushSpec.ChunksCountBounds | SSD1303.cpp:183-194 | no chunks iff no bytes; chunk count c is the least with N <= c * maxbuff |
| FlushSpec.ChunksStep | SSD1303.cpp:184-192 | one turn of the chunk loop takes min(remaining, maxbuff) bytes and leaves the rest to the following turns |
| FlushSpec.PageEventsShape | SSD1303.cpp:177-194 | for one page, exactly one command list is sent, its addressing triplet, before any of its data; the data is that page's dirty range |
| FlushSpec.PagesVisited | SSD1303.cpp:168-195 | pages lo..hi-1 are visited in ascending order: command list i is the triplet of page lo + i, and the data is each page's range in turn; no pages when hi <= lo |
| FlushSpec.NoSpeedChange | SSD1303.cpp:168-195 | the page loop never changes the bus clock |
| FlushSpec.FlushFraming | SSD1303.cpp:162-204 | on I2C the trace starts with the pre-clock and ends with the post-clock, with no clock change between; on SPI it ends with the NOP command and never changes the clock |
| FlushSpec.AfterFlush | SSD1303.cpp:206-210 | after a flush the window is inverted in both directions and all other state is as before |
| FlushSpec.SecondFlushIsEmpty | SSD1303.cpp:157-210 | after the reset, a second flush visits pages 128 to 0, i.e. none: no data, no addressing command, only the transport framing |
| FlushSpec.NoRowsNoPages | SSD1303.cpp:157-158 | a window whose last row is between -7 and 0 has last page 0, so no page is visited |
| FlushSpec.InvertedWindowVisitsPage | SSD1303.cpp:157-158 | the inverted window of rows 2 to 1 still visits page 0 |
| FlushSpec.PageMappingExample | SSD1303.cpp:157-158 | rows 9 to 19 give first page 1 and last page 3 |
| FlushSpec.EightRowWindowExample | SSD1303.cpp:157-175 | on 128x64, columns 10 to 20 of rows 0 to 7 flush page 0 only: buffer bytes 10 to 20 |
| FlushSpec.LastPageAsWritten | SSD1303.cpp:158 | as written, the page of the window's last row is visited iff that row is not the first of its page |
| FlushSpec.LastPageMissesRowEight | SSD1303.cpp:158 | the one-row window on row 8 gives first page == last page == 1, so nothing is flushed |
| FlushSpec.LastPageFixedCovers | SSD1303.cpp:157-158 | with last page ceil((y2+1)/8), every row of the window is on a visited page and every visited page holds a row of the window |
| FlushSpec.LastPageFixedAgrees | SSD1303.cpp:158 | the corrected and the written last page agree iff the window is empty (y2 == -1) or y2 is not a multiple of 8 |
| Controller.PageCommandSelects | SSD1303.cpp:177-181 | the addressing triplet selects page p + page_offset and puts the column pointer at page_start + column_offset, whatever the state before |
| Controller.ReplayChunks | SSD1303.cpp:183-194 | sending a range in chunks writes display RAM as one write of the whole range would |
| Controller.ReplayPage | SSD1303.cpp:169-194 | one page's events write exactly that page's dirty columns with the framebuffer's bytes |
| Controller.ReplayPages | SSD1303.cpp:168-195 | pages lo..hi-1 write exactly their dirty region and leave every other cell alone |
| Controller.FramingKeepsRam | SSD1303.cpp:162-204 | the clock changes and the NOP leave display RAM unchanged |
| Controller.FlushWritesDirtyRegion | SSD1303.cpp:148-211 | after a whole flush, the cells of the visited pages between page_start and page_end (shifted by the offsets) hold the framebuffer; no other cell changed |
| Controller.FixedFlushRam | SSD1303.cpp:157-195 | with the corrected last page, a flush writes the region of its pages and nothing else |
| Controller.FixedFlushWritesWindow | SSD1303.cpp:157-195 | with the corrected last page, the cell of every window row and dirty column is written with the framebuffer's byte |

## Left out

- Constructors' bus objects and `Adafruit_GrayOLED::_init` (pins, reset pulse, buffer allocation): the base display library is not part of this model. `_init`'s outcome is the `baseInitOk` parameter of `Begin`.
- Driver.Ssd1303.constructor: does not assign the dirty window. The drawing layer owns it, so the model treats it as given state.
- The `addr` and `reset` parameters of `begin()`: they only reach `_init`.
- The I2C command marker byte and the single-byte `oled_command`: these are base-class internals. A command list is one `Cmd` event.
- `spiWriteFast`'s scratch copy and chip-select transaction: an SPI data write is one `Data` event with no prefix.
- `digitalWrite(dcPin, HIGH)`, `yield()` and `delay(10)`: pin, scheduler and timing effects that do not change the bytes sent.
- `display(bool autoRetry)` and `doDisplay()`: declared in the header without a body, so no retry behaviour is modelled.
- Bus failures during `display()`: the code ignores the results of `oled_commandList` and `i2c_dev->write`, so the model has no error path there.
- Drawing primitives that widen the window: these live in the base class. The window fields are given state.
- Driver.Ssd1303.Display: wrap-around of WIDTH, of `maxbuff` (a zero limit) and of an out-of-range column window is excluded by `FlushSafe` rather than modelled, because the code would index outside the buffer or never leave the chunk loop.
- Controller.FlushWritesDirtyRegion: requires page + page_offset below 8 and a column address below 256, because the reference controller model has those eight pages. The controller model ignores the meaning of the init-table parameter bytes.
- The ghost `trace` stands in for the bus. The order of events is modelled; their timing is not.

## Findings

| source | as written | input that shows it | evidently intended | confidence | as-written member | corrected member |
|---|---|---|---|---|---|---|
| SSD1303.cpp:158 | `last_page = (window_y2 + 7) / 8` with the loop `p < last_page`, which is ceil(y2/8) | y1 = y2 = 8 (a single dirty pixel on row 8): first page 1, last page 1, so no page is sent | the pages holding rows y1..y2, i.e. last page ceil((y2+1)/8) = (y2 + 8) / 8 | medium, not executed | FlushSpec.LastPageMissesRowEight | FlushSpec.LastPageFixedCovers |

`Driver.Ssd1303.Display` keeps the formula as written, as the code does.
`FlushSpec.LastPageAsWritten` states the exact effect: the page holding the
last window row is skipped iff that row is a multiple of 8.
`FlushSpec.FlushTraceFixed` is the flush with the corrected formula.
`Controller.FixedFlushWritesWindow` proves that this flush writes every
row of the window.
