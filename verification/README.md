# PicoCalc console, keyboard and log ring: a Dafny model

The project models three parts of the system and proves what each is for.

**The framebuffer console.** fbcon keeps three things in step: the text buffer, the physical cells of a wrapped or
panned framebuffer, and a software scrollback ring. A `Console` has the same three: `text`, a `Display` with its
`cells` and `yscroll`, and `ring` with its `soft*` indices, all changed in place. The plain meaning of each operation
(`Grid.ScrolledUp`, `Grid.Blit`, `Console.View`) is defined apart from the code, on sequences of rows, and told cell by
cell in `Terminal.StepCell`.
`ConsoleRun.Run` is the main result: in every scroll mode, over every run of scrolls, scrollback moves, writes and
erasures, buffer, history and screen are those of a plain terminal (`Terminal`). One mode, pan-and-redraw, has scrolls
that go wrong: what they show is stated exactly, with the condition on the contents under which they are right
(`ShowsScroll`), consoles about to make such a scroll (`PanExamples`), and a guard over mode, sizes, position, region
and count (`Panning.AlwaysScrolls`) that holds exactly when the scroll is right whatever the contents; a run whose
scrolls meet it goes to the end.

Below the cells are the pixels. A `Display` draws on a `Blitter`, the four drawing back ends down to the pixel, and
keeps panel and cells in step in every rotation (`Picture`). `Glass.Run` carries this through: after any run, in every
mode and rotation, the window that `update_start` selects shows the plain terminal's view dot by dot, and lies inside
the memory.

`PositionMaps` and `Selection` cover selecting text in a scrolled-back view, `ScrollGeometry` the choice of mode and
size, and `ConsoleMap` which framebuffer is open for which console.

**The keyboard.** `Firmware` is the STM32 scanner with its ten slots, `Fifo` the 31-event ring, `KbdDriver` the Linux
driver, each a class as in the source; `DriverSpec` is the driver's event function, for reasoning about event
sequences. `Pipeline.System` puts them together: its `AllReleased` shows that no key, button, shift or pointer motion
survives the release of all switches, whatever happened before, and `Strokes` that a switch that closes reaches Linux,
whatever else is held. `Scanning` says what one scan makes of each key, `Typing` what the driver makes of it over whole
traces, down to the keycode of every key. `MouseMotion.Mover` is the part of the driver that
moves the pointer, in fixed point.

**The log ring** between the M0 core and Linux is a state machine whose steps are single accesses to shared memory,
in any interleaving, and beside it the two functions as methods on the buffer. `LogTransfers` is about whole calls: what
a read delivers and a write gets accepted while the other side goes on.

Verify with `dafny verify dfyconfig.toml`.

## Model

| member | source | states |
|---|---|---|
| Grid.PaintUniformRun | src/kernel-6.1/drivers/video/fbdev/core/fbcon.c:1335-1346 | a run handed to putcs is shown as stored when all its characters have one attribute byte, with 256 and with 512 glyphs, although putcs takes the colours of the first |
| Grid.StraightBlit | src/kernel-6.1/drivers/video/fbdev/core/fbcon.h:232-238 | a move that straddles the physical end neither in source nor target is, through real_y, one move inside physical memory with the same meaning on display rows, for every yscroll |
| Grid.CutBlitUp | src/kernel-6.1/drivers/video/fbdev/core/fbcon.c:1868-1882 | cutting an upward move and doing the top piece first keeps the meaning of one overlap-safe move |
| Grid.CutBlitDown | src/kernel-6.1/drivers/video/fbdev/core/fbcon.c:1868-1882 | cutting a downward move and doing the bottom piece first keeps it |
| Grid.CutCounts | src/kernel-6.1/drivers/video/fbdev/core/fbcon.c:1861-1901 | each cut takes away a crossing, so the two pieces together need no more blits than the whole was allowed |
| DisplayModel.Display.BmoveRec | src/kernel-6.1/drivers/video/fbdev/core/fbcon.c:1861-1901 | terminates, issues only blits inside physical memory, at most one plus one for each of source and target that crosses the wrap, and their effect is one overlap-safe move of the display rectangle |
| DisplayModel.Display.Bmove | src/kernel-6.1/drivers/video/fbdev/core/fbcon.c:1903-1924 | the same for any rectangle, empty ones included, with at most three blits |
| Grid.BlitCell | src/kernel-6.1/drivers/video/fbdev/core/fbcon.c:1899-1900 | moving a rectangle gives each cell of the target what the source cell held before, and changes no other cell |
| DisplayModel.Display.Clear | src/kernel-6.1/drivers/video/fbdev/core/fbcon.c:1297-1333 | blanks exactly the display rectangle, split at the wrap when it must be |
| Grid.WipeCell | src/kernel-6.1/drivers/video/fbdev/core/fbcon.c:1325-1332 | clearing a rectangle blanks exactly its cells: none to the left of sx or right of sx + width, none above or below |
| DisplayModel.Display.Putcs | src/kernel-6.1/drivers/video/fbdev/core/fbcon.c:1335-1346 | writes the run on its display line, also one off the screen that real_y maps, and nowhere else |
| DisplayModel.Display.PutRunAt | src/kernel-6.1/drivers/video/fbdev/core/fbcon.c:1335-1346 | the next run of one attribute on any line real_y maps, on the screen or off it |
| DisplayModel.Display.PutRun | src/kernel-6.1/drivers/video/fbdev/core/fbcon.c:1796-1816 | the runs of the redraw loops have one attribute, and putting the next one brings the line one run further towards its source row |
| DisplayModel.Display.CopyRun | src/kernel-6.1/drivers/video/fbdev/core/fbcon.c:1749-1770 | copying the next differing stretch on the screen brings the line that much further towards its source row |
| DisplayModel.Display.YwrapUp | src/kernel-6.1/drivers/video/fbdev/core/fbcon.c:1470-1487 | the shown rows move up by count, whatever appears below, and yscroll stays on the ring |
| DisplayModel.Display.YwrapDown | src/kernel-6.1/drivers/video/fbdev/core/fbcon.c:1489-1506 | the shown rows move down by count |
| DisplayModel.Display.YpanUp | src/kernel-6.1/drivers/video/fbdev/core/fbcon.c:1508-1530 | the shown rows move up by count also when the window jumps back to the top, and yscroll stays within vrows minus rows |
| DisplayModel.Display.YpanDown | src/kernel-6.1/drivers/video/fbdev/core/fbcon.c:1556-1578 | the same downwards |
| Grid.WindowSlides | src/kernel-6.1/drivers/video/fbdev/core/fbcon.c:1470-1506 | two scroll positions count rows apart on the ring show the same rows count lines apart |
| Grid.PanUpWindow | src/kernel-6.1/drivers/video/fbdev/core/fbcon.c:1513-1518 | after copying the last window position to the top, the window that follows it shows the old rows count lines higher |
| Grid.PanDownWindow | src/kernel-6.1/drivers/video/fbdev/core/fbcon.c:1562-1567 | the same for the first window position, downwards |
| Grid.SlideUpIsScroll | src/kernel-6.1/drivers/video/fbdev/core/fbcon.c:1962-1978 | saving the head, sliding the whole window, restoring the tail and clearing the gap is a scroll of rows t to b alone, whatever rows the slide brings in |
| Grid.SlideDownIsScroll | src/kernel-6.1/drivers/video/fbdev/core/fbcon.c:2050-2066 | the same downwards |
| Grid.MoveThenBlank | src/kernel-6.1/drivers/video/fbdev/core/fbcon.c:1972-1977 | moving the surviving rows and clearing the vacated ones is a scroll, both ways |
| Grid.TailAfterSlide | src/kernel-6.1/drivers/video/fbdev/core/fbcon.c:1989-1992 | redrawing the tail from the buffer after a slide puts back what moving it would |
| Grid.TailDrawnThenSlid | src/kernel-6.1/drivers/video/fbdev/core/fbcon.c:2096-2099 | tail rows drawn count lines higher are in place once the window has slid down |
| Grid.ShiftedStep | src/kernel-6.1/drivers/video/fbdev/core/fbcon.c:1781-1834 | walking the rows in the redraw order, each next source row in the one shared buffer is still the old one, upwards and downwards |
| ConsoleModel.Console.RedrawRow | src/kernel-6.1/drivers/video/fbdev/core/fbcon.c:1789-1823 | drawing only the cells that differ, in runs of one attribute, leaves buffer row and shown line equal to the source row, and nothing else changed |
| ConsoleModel.Console.RedrawLines | src/kernel-6.1/drivers/video/fbdev/core/fbcon.c:1781-1834 | a screen that shows the buffer shows it again after the differential redraw, and the buffer has shifted by the step, with source and target rows in one array |
| ConsoleModel.Console.RedrawBlitRow | src/kernel-6.1/drivers/video/fbdev/core/fbcon.c:1741-1768 | copying only the stretches that differ leaves buffer row and shown line equal to the source row |
| ConsoleModel.Console.RedrawBlitLines | src/kernel-6.1/drivers/video/fbdev/core/fbcon.c:1731-1779 | the same when changed stretches are copied on the screen |
| ConsoleModel.Console.RedrawMoveRow | src/kernel-6.1/drivers/video/fbdev/core/fbcon.c:1704-1725 | a row drawn in runs of one attribute replaces its line, on the screen or off it, whatever that was |
| ConsoleModel.Console.RedrawMoveLines | src/kernel-6.1/drivers/video/fbdev/core/fbcon.c:1697-1729 | rows from the buffer, and from the memory behind it if asked for, replace as many lines from dy on, those past the last physical row starting over |
| ConsoleModel.Console.constructor | src/kernel-6.1/drivers/video/fbdev/core/fbcon.c:1009-1013 | a blank screen and an empty ring start in step |
| Scrollback.SlicePush | src/kernel-6.1/drivers/video/fbdev/core/fbcon.c:1845-1857 | one round of the saving loop appends the row to the history and, when the ring is full, drops exactly the oldest one |
| ConsoleModel.Console.SoftbackPush | src/kernel-6.1/drivers/video/fbdev/core/fbcon.c:1845-1857 | the same on the ring in memory and its indices |
| Scrollback.LastOfLast | src/kernel-6.1/drivers/video/fbdev/core/fbcon.c:1852-1856 | keeping the last n rows at every step keeps the last n of all |
| ConsoleModel.Console.SoftbackNote | src/kernel-6.1/drivers/video/fbdev/core/fbcon.c:1836-1859 | the ring holds the last L-1 of all rows ever scrolled off, in order, L being its size in rows |
| Scrollback.HistoryThenScreen | src/kernel-6.1/drivers/video/fbdev/core/fbcon.c:1948-1960 | history followed by screen, after a whole-screen scroll, is a suffix of what it was followed by the blank rows: no row is lost or repeated |
| ConsoleModel.Console.BackInRing | src/kernel-6.1/drivers/video/fbdev/core/fbcon.c:1615-1631 | for every negative delta softback_curr stays on the ring and softback_lines is its distance to softback_in, stopping at the oldest row |
| ConsoleModel.Console.ForwardInRing | src/kernel-6.1/drivers/video/fbdev/core/fbcon.c:1632-1642 | for every other delta the same, stopping at the live screen |
| ConsoleModel.Console.SoftbackMove | src/kernel-6.1/drivers/video/fbdev/core/fbcon.c:1604-1645 | both, on the indices in memory; nothing moved means softback_lines is unchanged |
| Scrollback.NextLineOf | src/kernel-6.1/drivers/video/fbdev/core/fbcon.c:1685-1693 | stepping a row pointer past the ring end and from softback_in to vc_origin goes down the page of history and screen line by line |
| Scrollback.LineOfPage | src/kernel-6.1/drivers/video/fbdev/core/fbcon.c:1613-1614 | the row such a pointer stands on is that line of history followed by live screen |
| ConsoleModel.Console.DrawChanges | src/kernel-6.1/drivers/video/fbdev/core/fbcon.c:1650-1684 | a line that shows the old row shows the new one after only its differing cells were drawn |
| ConsoleModel.Console.DrawView | src/kernel-6.1/drivers/video/fbdev/core/fbcon.c:1646-1694 | walking old and new view side by side turns the screen from one window of history and live screen into the other |
| ConsoleModel.Console.Scrolldelta | src/kernel-6.1/drivers/video/fbdev/core/fbcon.c:1604-1695 | for every signed delta, a screen that shows the view shows the new view, softback_lines clamped between 0 and the length of the history |
| ConsoleModel.Console.SoftScrollUp | src/kernel-6.1/drivers/video/fbdev/core/fbcon.c:2021-2031 | redraw or copy upwards, then clear: buffer and screen both show the scrolled region |
| ConsoleModel.Console.SoftScrollDown | src/kernel-6.1/drivers/video/fbdev/core/fbcon.c:2107-2117 | the same downwards |
| ConsoleModel.Console.HardScrollUp | src/kernel-6.1/drivers/video/fbdev/core/fbcon.c:1962-1978 | wrapping or panning upwards with saved head and tail shows the scrolled region |
| ConsoleModel.Console.HardScrollDown | src/kernel-6.1/drivers/video/fbdev/core/fbcon.c:2050-2088 | the same downwards |
| ConsoleModel.Console.YpanUpRedraw | src/kernel-6.1/drivers/video/fbdev/core/fbcon.c:1532-1554 | without a jump the shown rows move up by count; with one, exactly which lines come from the buffer, which from the memory behind it and which from the framebuffer |
| ConsoleModel.Console.YpanDownRedraw | src/kernel-6.1/drivers/video/fbdev/core/fbcon.c:1580-1602 | without a jump the shown rows move down by count; with one, the lines from t + count on show the buffer rows count before them |
| ConsoleModel.Console.PanWindowUp | src/kernel-6.1/drivers/video/fbdev/core/fbcon.c:1987-1992 | head redrawn, window moved without a jump and tail redrawn, only the gap is left to clear |
| ConsoleModel.Console.PanWindowJumpsUp | src/kernel-6.1/drivers/video/fbdev/core/fbcon.c:1987-1992 | the same with a jump: region and tail in place, the head stale |
| Grid.JumpThenDraw | src/kernel-6.1/drivers/video/fbdev/core/fbcon.c:1540-1543 | the screen after the jump and the drawing, lines that run off the screen included, in terms of the framebuffer before |
| Grid.JumpedUp | src/kernel-6.1/drivers/video/fbdev/core/fbcon.c:1540-1543 | of that screen the region is in place and the head is the stale one |
| Grid.DrawnOneMore | src/kernel-6.1/drivers/video/fbdev/core/fbcon.c:1697-1729 | drawing one more row, also past the last physical row, where lines start over |
| ConsoleModel.Console.PanWindowDown | src/kernel-6.1/drivers/video/fbdev/core/fbcon.c:2096-2101 | for every region the head holds the rows count further down, and below the gap the region and tail are in place or, after a jump, all redrawn count lines lower |
| ConsoleModel.Console.PanMovesDown | src/kernel-6.1/drivers/video/fbdev/core/fbcon.c:2096-2104 | the same with the gap cleared |
| Grid.MovedThenBlank | src/kernel-6.1/drivers/video/fbdev/core/fbcon.c:2104-2104 | clearing the gap completes both outcomes |
| ConsoleModel.Console.PanRedrawUp | src/kernel-6.1/drivers/video/fbdev/core/fbcon.c:1980-1996 | exactly what is shown upwards, for every region and whatever lies behind the buffer: the scrolled region, its head replaced by the stale one when the window jumps |
| ConsoleModel.Console.PanRedrawDown | src/kernel-6.1/drivers/video/fbdev/core/fbcon.c:2090-2105 | exactly what is shown downwards, for every region: the scrolled region, its head overwritten with the rows count further down when the window moves and its tail with the rows count further up when it jumps |
| ConsoleModel.Console.ShowsScrollExactly | src/kernel-6.1/drivers/video/fbdev/core/fbcon.c:1980-2105 | for all regions, counts, positions and contents: what is shown is a scroll of the region if and only if ShowsScroll holds, that is, in pan-and-redraw mode, upwards after a jump the stale head equals the head, downwards when the window moves the rows drawn over head (and, after a jump, tail) equal those they cover |
| Grid.PutEndsSame | src/kernel-6.1/drivers/video/fbdev/core/fbcon.c:2096-2101 | overdrawing a tail and a head changes a screen unless both equal what they cover |
| PanningModel.Panning.AlwaysScrollsExactly | src/kernel-6.1/drivers/video/fbdev/core/fbcon.c:1980-2105 | for every position, region, direction and count: the guard, which reads no contents, holds if and only if the scroll is a scroll for all contents of screen, hidden rows and memory behind the buffer. In pan-and-redraw mode it asks, upwards with a jump, for no head or for a count equal to the spare rows and a head no longer than they are; downwards with the window moved, for no head and, after a jump, no tail |
| PanningModel.Panning.GuardSuffices | src/kernel-6.1/drivers/video/fbdev/core/fbcon.c:1980-2105 | one half: under the guard what is drawn in the wrong place equals what belongs there |
| PanningModel.Panning.GuardNeeded | src/kernel-6.1/drivers/video/fbdev/core/fbcon.c:1980-2105 | the other half: contents that go wrong for every scroll the guard refuses |
| PanningModel.Panning.SafeAnywhere | src/kernel-6.1/drivers/video/fbdev/core/fbcon.c:1980-2105 | regions and counts for which the guard holds wherever the window stands, and only those: outside pan-and-redraw or without partial panning all, else those that leave few rows to move, too many for any window move, or meet it with a jump |
| PanningModel.Panning.MovesWhenMostStays | src/kernel-6.1/drivers/video/fbdev/core/fbcon.c:1962-2093 | the window moves exactly when, for a wrap or a partial pan, more than three quarters of the screen's rows move along, for any other pan the whole screen scrolls, and one jump is enough |
| PanningModel.HeadStaysFresh | src/kernel-6.1/drivers/video/fbdev/core/fbcon.c:1540-1543 | a jump by exactly the spare rows leaves a head no longer than they are where it was, for all contents |
| PanningModel.HeadGoesStale | src/kernel-6.1/drivers/video/fbdev/core/fbcon.c:1540-1543 | every other jump over a head leaves a head that differs for the contents given |
| PanExamples.HeadDrawnWrong | src/kernel-6.1/drivers/video/fbdev/core/fbcon.c:2100-2101 | a nine-row console, valid and in step (the body gets there by a run from its start), for which the scroll of rows 1 to 9 down by one does not meet ShowsScroll, so that by Scroll its screen is not the scroll: the head is drawn over |
| PanExamples.TailDrawnWrong | src/kernel-6.1/drivers/video/fbdev/core/fbcon.c:1588-1591 | such a console for the scroll of rows 0 to 8 down by one, whose jump draws over the tail |
| PanExamples.HeadLeftStale | src/kernel-6.1/drivers/video/fbdev/core/fbcon.c:1540-1543 | such a console for the scroll of rows 1 to 9 up by one, whose jump leaves a hidden row in the head |
| ConsoleModel.Console.ScrollRegionUp | src/kernel-6.1/drivers/video/fbdev/core/fbcon.c:1950-2032 | the switch over scroll modes upwards: which calls say they moved the buffer, where the window ends up, and exactly what is shown |
| ConsoleModel.Console.ScrollRegionDown | src/kernel-6.1/drivers/video/fbdev/core/fbcon.c:2038-2118 | the same downwards |
| ConsoleModel.Console.LeaveHistory | src/kernel-6.1/drivers/video/fbdev/core/fbcon.c:1387-1390 | before any scroll the view is back at the live screen, and the history is untouched |
| ConsoleModel.Console.ScrollUp | src/kernel-6.1/drivers/video/fbdev/core/fbcon.c:1945-2032 | upwards, the rows about to scroll off are in the history and the screen shows what UpShown says; for the whole screen history and buffer together are then a suffix of what they were followed by blank rows, whenever the call moved the buffer |
| ConsoleModel.Console.Scroll | src/kernel-6.1/drivers/video/fbdev/core/fbcon.c:1926-2121 | in every mode, for every region and count and both directions: exactly what the screen shows; that it is the region scrolled from what was shown (or from the live buffer, if scrolled back) if and only if ShowsScroll held, which is always outside pan-and-redraw; the hardware position; the rows scrolled off are in the history; the buffer follows exactly when the call returns true, and a whole-screen scroll up then loses or repeats no row between history and buffer |
| ConsoleModel.Console.Write | src/kernel-6.1/drivers/video/fbdev/core/fbcon.c:1335-1346 | a run stored in the buffer and drawn leaves buffer, history and screen in step, back at the live screen |
| ConsoleModel.Console.Erase | src/kernel-6.1/drivers/video/fbdev/core/fbcon.c:1297-1333 | so does a rectangle blanked and cleared |
| ConsoleModel.Console.MoveText | src/kernel-6.1/drivers/video/fbdev/core/fbcon.c:2120-2120 | the buffer move left to the caller when the call returns false brings the buffer to the same scroll |
| ConsoleRun.Step | src/kernel-6.1/drivers/video/fbdev/core/fbcon.c:1926-2121 | every scroll that meets the condition, look back, write and erasure refines the plain terminal's and leaves the screen showing the view |
| ConsoleRun.ScrollStep | src/kernel-6.1/drivers/video/fbdev/core/fbcon.c:1926-2121 | a scroll that meets the condition, with the buffer move left to the caller, leaves buffer, history and screen in step; scrolling the whole screen up leaves history and buffer together a suffix of what they were followed by blank rows, in every mode |
| ConsoleRun.Run | src/kernel-6.1/drivers/video/fbdev/core/fbcon.c:1926-2121 | over every run of scrolls, looks back, writes and erasures, in every scroll mode, buffer, scrolled-off rows, scroll-back position and screen are those of the plain terminal, up to the first scroll that fails the exact condition, and to the end when every scroll meets the guard where it finds the window, whose position is known in advance from the scrolls alone |
| Terminal.StepCell | src/kernel-6.1/drivers/video/fbdev/core/fbcon.c:1926-2121 | what each operation of a run makes of every single cell: a scroll shifts the region's rows and blanks the vacated ones, a write puts each character in its place, an erasure blanks its rectangle alone, a look back changes nothing |
| Terminal.StepHistory | src/kernel-6.1/drivers/video/fbdev/core/fbcon.c:1604-1645 | a scroll up appends the rows that leave the top of its region, oldest first, nothing else is ever forgotten; looking back moves by delta as far as rows are kept, and every other operation ends it |
| Terminal.ViewRow | src/kernel-6.1/drivers/video/fbdev/core/fbcon.c:1646-1694 | row i of the screen is the row scrolled off that many rows before the end, or below those the live screen from its top |
| ConsoleRun.GuardedIsFaithful | src/kernel-6.1/drivers/video/fbdev/core/fbcon.c:1980-2105 | a guarded scroll meets the exact condition, whatever screen, framebuffer and memory hold |
| ConsoleRun.TryStep | src/kernel-6.1/drivers/video/fbdev/core/fbcon.c:1926-2121 | one operation of a run is done as the plain terminal does it, or is a scroll that is neither right for these contents nor guarded |
| ScrollGeometry.UpdateVrows | src/kernel-6.1/drivers/video/fbdev/core/fbcon.c:2166-2184 | vrows is the visible rows plus all the rows the memory below the screen has room for, and one more if and only if the screen is exactly one row taller than the rows used, when the last window position leaves the virtual framebuffer |
| ScrollGeometry.SpareRowOverlooked | src/kernel-6.1/drivers/video/fbdev/core/fbcon.c:2176-2178 | a screen and panning hardware for which the last window position allowed, in the pan mode chosen, ends one row behind the memory |
| ScrollGeometry.PanLeavesMemory | src/kernel-6.1/drivers/video/fbdev/core/fbcon.c:2166-2184 | in every panning mode some allowed window position leaves the virtual framebuffer if and only if the screen is exactly one row taller than the rows used |
| ScrollGeometry.PanStaysInside | src/kernel-6.1/drivers/video/fbdev/core/fbcon.c:2166-2184 | with vc_rows = yres/fh every yscroll up to vrows minus vc_rows keeps the window inside the virtual framebuffer |
| ScrollGeometry.ModeSuitsMemory | src/kernel-6.1/drivers/video/fbdev/core/fbcon.c:2124-2164 | wrapping is chosen only where text rows tile memory exactly, panning only where there is memory to spare and the pan step divides the row |
| ScrollGeometry.ModeChosen | src/kernel-6.1/drivers/video/fbdev/core/fbcon.c:2124-2164 | for every hardware, which of the five modes is chosen, each if and only if: what can wrap by rows wraps or redraws, what can only pan pans by moving or redrawing, as copying pays or not; the rest copies on the screen if reading is fast or copying alone is accelerated, and redraws otherwise |
| PositionMaps.ScreenPosIsView | src/kernel-6.1/drivers/video/fbdev/core/fbcon.c:2806-2821 | the address of every cell of the screen is that of the ring or buffer row the view shows there, around the ring end |
| PositionMaps.ViewLineIsShown | src/kernel-6.1/drivers/video/fbdev/core/fbcon.c:2806-2821 | that row is line y of the ring from softback_curr to softback_in continued by the live screen |
| PositionMaps.RingCell | src/kernel-6.1/drivers/video/fbdev/core/fbcon.c:2837-2849 | getxy finds column and line of a cell of a ring row, and the next row past the ring end or the jump to vc_origin |
| PositionMaps.GetXYUndoesScreenPos | src/kernel-6.1/drivers/video/fbdev/core/fbcon.c:2823-2860 | on every visible cell and in every ring state getxy undoes screen_pos, and returns screen_pos of the next row's start |
| Selection.InvertedTwice | src/kernel-6.1/drivers/video/fbdev/core/fbcon.c:2864-2882 | inverting a cell twice restores it in mono, 256-glyph and 512-glyph mode |
| Selection.InvertedColours | src/kernel-6.1/drivers/video/fbdev/core/fbcon.c:2867-2876 | inverting a cell of any glyph and colours keeps the glyph, exchanges the hues of foreground and background and leaves brightness and blinking in place; in mono the reverse bit flips alone |
| Selection.InvertCell | src/kernel-6.1/drivers/video/fbdev/core/fbcon.c:2867-2876 | one inverted cell changes that cell of the page of history and live screen, and no slot outside the history |
| Selection.InvertedRunAt | src/kernel-6.1/drivers/video/fbdev/core/fbcon.c:2864-2882 | an inverted run changes exactly the cells between its ends in reading order |
| Selection.InvertedRunTwice | src/kernel-6.1/drivers/video/fbdev/core/fbcon.c:2864-2882 | inverting a run twice restores the page |
| Selection.InvertRegion | src/kernel-6.1/drivers/video/fbdev/core/fbcon.c:2864-2882 | from any position the next cnt cells of history and live screen are inverted, nothing else, the ring slots outside the history included |
| Scrollback.SameRing | src/kernel-6.1/drivers/video/fbdev/core/fbcon.c:2864-2882 | history and the slots outside it determine the ring, so restoring both restores the memory |
| Selection.InvertRegionTwice | src/kernel-6.1/drivers/video/fbdev/core/fbcon.c:2864-2882 | twice leaves all memory as it was |
| Blitters.Blitter.BlockIsCells | src/kernel-6.1/drivers/video/fbdev/core/fbcon_cw.c:66-81 | in every rotation the panel rectangle computed for a block of cells lies on the panel and covers exactly the block's dots |
| Blitters.Blitter.ViewIsPanel | src/kernel-6.1/drivers/video/fbdev/core/fbcon_ud.c:68-83 | the turned picture and the panel have the same dots, one to one |
| Blitters.Blitter.Turned | src/kernel-6.1/drivers/video/fbdev/core/fbcon_ccw.c:81-96 | one dot right and one down on the picture are right and down, down and left, left and up, up and right on the panel, turn by turn |
| Blitters.Blitter.Clear | src/kernel-6.1/drivers/video/fbdev/core/fbcon_ccw.c:81-96 | the user sees the block filled and nothing else changed, in all four rotations |
| Blitters.Blitter.Bmove | src/kernel-6.1/drivers/video/fbdev/core/fbcon_ud.c:48-66 | the user sees the block moved, overlap included, and nothing else changed, in all four rotations |
| Blitters.Blitter.CursorOnCell | src/kernel-6.1/drivers/video/fbdev/core/fbcon_ud.c:317-318 | the cursor position each rotation computes is the corner of the cell that rotation's clear uses |
| Blitters.Blitter.PackRow | src/kernel-6.1/drivers/video/fbdev/core/bitblit.c:108-141 | the aligned and unaligned packers put glyph k at bit k times the font width (8 * (dst - dst0) + shift_low is always that), forwards or backwards through the text |
| Blitters.Blitter.NextPlace | src/kernel-6.1/drivers/video/fbdev/core/bitblit.c:133-136 | stepping dst and shift_low by the source pitch and the odd bits steps the bit position by the font width |
| Blitters.Blitter.PackColumn | src/kernel-6.1/drivers/video/fbdev/core/fbcon_ccw.c:98-128 | the sideways packers put glyph k at line k times the font width |
| Blitters.Blitter.ChunkDot | src/kernel-6.1/drivers/video/fbdev/core/fbcon_ud.c:151-220 | in every rotation and for every chunk the bit under a dot belongs to the character of that cell, turned so that it appears upright |
| Blitters.Blitter.ChunkIsBlock | src/kernel-6.1/drivers/video/fbdev/core/fbcon_ud.c:192-211 | each chunk is blitted on the rectangle of its characters' cells, and image.dx or image.dy advances to the next |
| Blitters.Blitter.PutSpan | src/kernel-6.1/drivers/video/fbdev/core/fbcon_cw.c:143-165 | one chunk as the user sees it, and nothing else changed |
| Blitters.Blitter.Putcs | src/kernel-6.1/drivers/video/fbdev/core/fbcon_ccw.c:130-189 | in all four rotations and for every chunk size from 1 up, the user sees character k upright in cell (yy, xx+k), and nothing else changed |
| Blitters.Blitter.UpdateStart | src/kernel-6.1/drivers/video/fbdev/core/fbcon_ud.c:418-437 | this and its three fellows (bitblit.c:394-404, fbcon_cw.c:378-393, fbcon_ccw.c:395-410): with the offsets computed for a line of the picture, every dot the user sees on the glass is the picture's dot that many lines further on, upright, around the end of the memory too when the hardware wraps |
| Picture.Putcs | src/kernel-6.1/drivers/video/fbdev/core/fbcon.c:1335-1346 | a panel that shows some cells dot by dot shows them with the run painted in, in every rotation and in the colours of its first character |
| Picture.Clear | src/kernel-6.1/drivers/video/fbdev/core/fbcon.c:1297-1333 | it shows them with the rectangle erased, for an empty erase glyph |
| Picture.Bmove | src/kernel-6.1/drivers/video/fbdev/core/fbcon.c:1899-1900 | it shows them with the rectangle moved, overlap included |
| Picture.Painted | src/kernel-6.1/drivers/video/fbdev/core/fbcon.c:1335-1346 | a painted cell has its own glyph and the colours of its run's first character |
| Picture.DotColour | src/kernel-6.1/drivers/video/fbdev/core/fbcon.c:303-305 | a cell put together from a glyph, a foreground and a background colour, with 256 or 512 glyphs, shows its glyph's dots in the one and all others in the other |
| DisplayModel.Display.constructor | src/kernel-6.1/drivers/video/fbdev/core/fbcon.c:2367-2370 | a blank panel shows a blank display: the start of every run |
| DisplayModel.Display.OpsPutcs | src/kernel-6.1/drivers/video/fbdev/core/fbcon.c:1335-1346 | a run painted on panel and cells leaves the panel showing the cells, in the modes that never move the window also when the panel has room for the visible rows alone |
| DisplayModel.Display.OpsClear | src/kernel-6.1/drivers/video/fbdev/core/fbcon.c:1297-1333 | so does a cleared rectangle |
| DisplayModel.Display.OpsBmove | src/kernel-6.1/drivers/video/fbdev/core/fbcon.c:1899-1900 | so does a moved one |
| Glass.WindowInside | src/kernel-6.1/drivers/video/fbdev/core/fbcon.c:2166-2184 | on a valid display laid out as updatescrollmode does it, a panned window lies inside the memory and a wrapped one starts in memory that text rows tile exactly |
| Glass.WindowLine | src/kernel-6.1/drivers/video/fbdev/core/fbcon.h:232-238 | line v of the window belongs to the physical row real_y finds for text row v / fh, around the wrap |
| Glass.ShowWindow | src/kernel-6.1/drivers/video/fbdev/core/fbcon_cw.c:378-393 | through the offsets of update_start for yscroll every dot of the text on the glass is that of the character in its row and column of the screen, in every rotation and mode |
| Glass.ColoursOnGlass | src/kernel-6.1/drivers/video/fbdev/core/fbcon.c:1335-1346 | on a glass that shows the screen, dot (gx, gy) of the character in row r and column k is at (k * width + gx, r * height + gy), in the character's foreground colour if its glyph has the dot and in its background colour if not |
| Glass.Run | src/kernel-6.1/drivers/video/fbdev/core/fbcon.c:1926-2121 | over every run, in every rotation and scroll mode, the glass shows the plain terminal's view dot by dot, and the window of a panning display has stayed inside the memory |
| ConsoleMap.RemapKeeps | src/kernel-6.1/drivers/video/fbdev/core/fbcon.c:871-889 | one remapping keeps "open, once, exactly while some console in range maps to it" for every framebuffer, for all inputs, if and only if the console number is in range or the call neither opens nor releases |
| ConsoleMap.OutsideRangeBreaks | src/kernel-6.1/drivers/video/fbdev/core/fbcon.c:871-889 | a run on a console map with console 0 alone in range, after which console 1 keeps a second framebuffer open that no console in range uses |
| ConsoleMap.FailedOpenKeeps | src/kernel-6.1/drivers/video/fbdev/core/fbcon.c:727-762 | an opening that fails, even after the driver accepted it, leaves no framebuffer open |
| ConsoleMap.TakeoverKeeps | src/kernel-6.1/drivers/video/fbdev/core/fbcon.c:555-556 | mapping every console to one opened framebuffer establishes the invariant |
| ConsoleMap.UnmapKeeps | src/kernel-6.1/drivers/video/fbdev/core/fbcon.c:3194-3200 | taking one console off its framebuffer, with a release when it was the last, keeps the invariant |
| ConsoleMap.DropKeeps | src/kernel-6.1/drivers/video/fbdev/core/fbcon.c:1212-1224 | taking all consoles off a framebuffer at once, with one release, keeps it |
| ConsoleMap.Console.SearchFbInMap | src/kernel-6.1/drivers/video/fbdev/core/fbcon.c:523-532 | answers whether some console in range uses the framebuffer |
| ConsoleMap.Console.SearchForMappedCon | src/kernel-6.1/drivers/video/fbdev/core/fbcon.c:534-543 | answers whether any console in range is mapped |
| ConsoleMap.Console.Open | src/kernel-6.1/drivers/video/fbdev/core/fbcon.c:727-762 | a refused or failed open leaves the framebuffer without console state, a failed allocation also releases it |
| ConsoleMap.Console.SetMap | src/kernel-6.1/drivers/video/fbdev/core/fbcon.c:848-901 | its answer, the new map, the drivers' opens and releases, that info_idx is in use afterwards, and exactly when the invariant survives |
| ConsoleMap.Console.DoTakeover | src/kernel-6.1/drivers/video/fbdev/core/fbcon.c:545-570 | a takeover maps every console in range to the framebuffer it opened, and a failed one maps none |
| ConsoleMap.Console.FindReplacement | src/kernel-6.1/drivers/video/fbdev/core/fbcon.c:3171-3177 | the first framebuffer other than this one that a console in range uses, or none |
| ConsoleMap.Console.RemapAll | src/kernel-6.1/drivers/video/fbdev/core/fbcon.c:3179-3183 | remapping console by console moves them all and releases once, at the last |
| ConsoleMap.Console.UnmapAll | src/kernel-6.1/drivers/video/fbdev/core/fbcon.c:3193-3201 | unmapping console by console clears them all and releases once, at the last |
| ConsoleMap.Console.Unbind | src/kernel-6.1/drivers/video/fbdev/core/fbcon.c:3159-3206 | its consoles go to the first other framebuffer in use, or to none, and it is released exactly once |
| ConsoleMap.Console.ReleaseAll | src/kernel-6.1/drivers/video/fbdev/core/fbcon.c:1204-1226 | no console stays mapped, every open framebuffer is released once, and none is opened |
| ConsoleMap.Run | src/kernel-6.1/drivers/video/fbdev/core/fbcon.c:848-901 | over every run each framebuffer's opens and releases alternate, and it is open exactly while some console in range uses it |
| Keys.KeyOfPhysOf | modules-drivers/picocalc_keyboard_stm_mod/picocalc_kbd.c:147-204 | through firmware and driver tables every switch but the blank one has a physical key of its own |
| Fifo.EventFifo.Enqueue | modules-drivers/picocalc_keyboard_stm_mod/picocalc_keyboard_stm/fifo.ino:22-33 | appends to the queue, or refuses and changes nothing exactly when 31 events wait |
| Fifo.EventFifo.EnqueueForce | modules-drivers/picocalc_keyboard_stm_mod/picocalc_keyboard_stm/fifo.ino:35-45 | appends always, dropping exactly the oldest event of a full queue |
| Fifo.EventFifo.Dequeue | modules-drivers/picocalc_keyboard_stm_mod/picocalc_keyboard_stm/fifo.ino:47-58 | hands out the oldest event and removes it, or all zeros from an empty queue |
| SlotTable.Rewrite | modules-drivers/picocalc_keyboard_stm_mod/picocalc_keyboard_stm/keyboard.ino:250-279 | changing a key's slot keeps one slot per key and changes no other key's standing |
| SlotTable.Admit | modules-drivers/picocalc_keyboard_stm_mod/picocalc_keyboard_stm/keyboard.ino:327-336 | giving a free slot to a key that has none does too |
| SlotTable.ReportAgrees | modules-drivers/picocalc_keyboard_stm_mod/picocalc_keyboard_stm/keyboard.ino:91-205 | a report moves its own key's stream and no other's along the automaton of (Pressed (Pressed, Hold)* Released)* |
| Firmware.TransitionAgrees | modules-drivers/picocalc_keyboard_stm_mod/picocalc_keyboard_stm/keyboard.ino:91-205 | entering a state keeps every key's stream a prefix of that language, down exactly while its slot is |
| Firmware.Keyboard.KeyCb | modules-drivers/picocalc_keyboard_stm_mod/picocalc_keyboard_stm/picocalc_keyboard.ino:76-106 | what the queue holds afterwards: nothing before the start, and then, full or not, with and without the overflow option |
| Firmware.Keyboard.TransitionTo | modules-drivers/picocalc_keyboard_stm_mod/picocalc_keyboard_stm/keyboard.ino:91-205 | exactly which event a change of state reports, a hold of a repeating key as another press |
| Firmware.Keyboard.NextItemState | modules-drivers/picocalc_keyboard_stm_mod/picocalc_keyboard_stm/keyboard.ino:207-280 | the next state and the event, given the two clock readings, with the slot table, the modifier flags and every key's stream kept in agreement |
| Firmware.Keyboard.StartItem | modules-drivers/picocalc_keyboard_stm_mod/picocalc_keyboard_stm/keyboard.ino:207-248 | a new press takes the slot, sets its modifier flag and reports Pressed |
| Firmware.Keyboard.Vacate | modules-drivers/picocalc_keyboard_stm_mod/picocalc_keyboard_stm/keyboard.ino:271-279 | a released key gives back its slot and modifier flag without a report |
| Firmware.Keyboard.ProcessKey | modules-drivers/picocalc_keyboard_stm_mod/picocalc_keyboard_stm/keyboard.ino:312-337 | one switch: the key's slot moves on by the switch and the clock, or a key found closed takes the first free slot and is reported pressed, or, all ten taken, nothing happens; no other slot changes; an event is lost exactly when the queue is full |
| Firmware.Keyboard.FindSlot | modules-drivers/picocalc_keyboard_stm_mod/picocalc_keyboard_stm/keyboard.ino:312-319 | the first slot that holds the key, or none if and only if no slot does |
| Firmware.Keyboard.PowerEvent | modules-drivers/picocalc_keyboard_stm_mod/picocalc_keyboard_stm/picocalc_keyboard.ino:76-106 | the power button speaks past the slot table without disturbing any key's stream |
| Firmware.Keyboard.KeyboardProcess | modules-drivers/picocalc_keyboard_stm_mod/picocalc_keyboard_stm/keyboard.ino:284-404 | for arbitrary readings and clocks: every key meets its fate by its own switch alone (KeyFate), what was reported is the looks' reports in order, an event is lost if and only if more are waiting than fit; each key keeps at most one slot, each modifier flag is set exactly while its key has one, every stream stays in the language; with all switches open every slot comes closer to free |
| Scanning.KeyFate | modules-drivers/picocalc_keyboard_stm_mod/picocalc_keyboard_stm/keyboard.ino:302-343 | over a whole scan with arbitrary readings: a key with a slot moves on by its own switch and the time since its press and reports accordingly; a closed key without one has one afterwards and was reported pressed, unless all ten are taken when it is its turn; an open key without one has none and was not reported |
| Scanning.TenKeys | modules-drivers/picocalc_keyboard_stm_mod/picocalc_keyboard_stm/keyboard.ino:302-343 | if at most ten keys have a slot or are closed, no closed key is missed, whatever the order of the scan |
| Scanning.FewReports | modules-drivers/picocalc_keyboard_stm_mod/picocalc_keyboard_stm/keyboard.ino:302-400 | a scan reports each of those keys at most once and no other |
| Scanning.LookOnce | modules-drivers/picocalc_keyboard_stm_mod/picocalc_keyboard_stm/keyboard.ino:302-343 | one more look extends the record of a scan |
| Scanning.OrderAt | modules-drivers/picocalc_keyboard_stm_mod/picocalc_keyboard_stm/keyboard.ino:302-320 | the matrix is looked at column by column: row r of column c is key r * 8 + c |
| Scanning.TurnOnce | modules-drivers/picocalc_keyboard_stm_mod/picocalc_keyboard_stm/keyboard.ino:302-400 | no key is looked at twice in a scan |
| Scanning.TurnOf | modules-drivers/picocalc_keyboard_stm_mod/picocalc_keyboard_stm/keyboard.ino:302-400 | and every key has its turn |
| Scanning.HeldKey | modules-drivers/picocalc_keyboard_stm_mod/picocalc_keyboard_stm/keyboard.ino:250-269 | in real time, across the clock's wrap: a key in its first 300 ms is reported released once found open and else left alone; past that it is reported again whatever its switch, then again at least every 100 ms while closed, and released when open |
| Scanning.RepeatingKeys | modules-drivers/picocalc_keyboard_stm_mod/picocalc_keyboard_stm/keyboard.ino:195-201 | all keys have their holds reported as presses but F1 to F5, Caps Lock, Esc and the modifiers |
| Scanning.OpenScanQuiets | modules-drivers/picocalc_keyboard_stm_mod/picocalc_keyboard_stm/keyboard.ino:302-400 | a scan with every switch open brings each slot in use closer to free and takes none |
| DriverSpec.DispatchKeeps | modules-drivers/picocalc_keyboard_stm_mod/picocalc_kbd.c:637-845 | every event keeps: Linux has R-shift down if and only if rshift_reported, and then phy_SHR holds; a mouse direction belongs to an arrow locked as mouse; the timer is pending if and only if a direction is set; every ordinary keycode down is named by a locked key |
| DriverSpec.RunKeeps | modules-drivers/picocalc_keyboard_stm_mod/picocalc_kbd.c:637-845 | so does every sequence of events from the start |
| DriverSpec.PressKeeps | modules-drivers/picocalc_keyboard_stm_mod/picocalc_kbd.c:752-844 | a press keeps them, whatever the shifts and mouse mode |
| DriverSpec.ReleaseKeeps | modules-drivers/picocalc_keyboard_stm_mod/picocalc_kbd.c:714-750 | a release keeps them, whatever the key was locked to |
| DriverSpec.ModifyKeeps | modules-drivers/picocalc_keyboard_stm_mod/picocalc_kbd.c:653-686 | a modifier keeps them |
| DriverSpec.CapsKeeps | modules-drivers/picocalc_keyboard_stm_mod/picocalc_kbd.c:688-712 | Caps Lock, and with R-shift the switch of mouse mode, keeps them |
| DriverSpec.RunBelieves | modules-drivers/picocalc_keyboard_stm_mod/picocalc_kbd.c:637-845 | after every trace a locked record or a shift flag means that key was last pressed, not released |
| DriverSpec.Effects | modules-drivers/picocalc_keyboard_stm_mod/picocalc_kbd.c:637-845 | only a key's own press or release changes its record, only modifiers change shift flags, holds change nothing |
| DriverSpec.NoStuckKey | modules-drivers/picocalc_keyboard_stm_mod/picocalc_kbd.c:714-844 | over every trace, an ordinary keycode or button that Linux has down has a held key whose locked record names it |
| DriverSpec.RecordStays | modules-drivers/picocalc_keyboard_stm_mod/picocalc_kbd.c:714-844 | between its own events a key keeps its record, whatever shifts, Caps and mouse mode do |
| DriverSpec.ReleaseUndoesPress | modules-drivers/picocalc_keyboard_stm_mod/picocalc_kbd.c:714-844 | a release takes back exactly the keycode or mouse direction its press reported, whatever came between |
| DriverSpec.AllUp | modules-drivers/picocalc_keyboard_stm_mod/picocalc_kbd.c:637-845 | when the trace says every key is up, nothing is down, no direction set, no timer pending, every record free |
| DriverSpec.TablesAreOrdinary | modules-drivers/picocalc_keyboard_stm_mod/picocalc_kbd.c:207-302 | no table yields a shift, Alt, Ctrl or Caps keycode for an ordinary key, and every ordinary key has a base keycode |
| Typing.RunRemembers | modules-drivers/picocalc_keyboard_stm_mod/picocalc_kbd.c:637-845 | after every trace mouse mode and Caps Lock are what the Caps presses with and without R-shift make them, and exactly the ordinary keys that are held have a record |
| Typing.FreshPress | modules-drivers/picocalc_keyboard_stm_mod/picocalc_kbd.c:752-844 | after every trace, what goes down when an ordinary key is pressed: with R-shift held nothing for the backlight keys, its own keycode for a key with an Fn meaning, KEY_RIGHTSHIFT and its keycode for all others; without R-shift its keycode, or in mouse mode a button or a motion; KEY_RIGHTSHIFT is never down without R-shift |
| Typing.HeldPress | modules-drivers/picocalc_keyboard_stm_mod/picocalc_kbd.c:756-758 | a press or hold of a held key changes nothing, whatever changed since it went down |
| Typing.ReleaseEnds | modules-drivers/picocalc_keyboard_stm_mod/picocalc_kbd.c:714-750 | a release takes up exactly the keycode or button its press put down, by the shift and mode of that time, and ends exactly its own motion |
| Typing.ModifiersFollow | modules-drivers/picocalc_keyboard_stm_mod/picocalc_kbd.c:653-686 | after every trace left shift, Alt and Ctrl are down if and only if held, right shift only if held |
| Typing.CapsPress | modules-drivers/picocalc_keyboard_stm_mod/picocalc_kbd.c:688-712 | Caps Lock goes down unless R-shift is held; then right shift goes up and all motion ends |
| Typing.FnOnlyThere | modules-drivers/picocalc_keyboard_stm_mod/picocalc_kbd.c:207-302 | exactly which keys have an Fn keycode, in and out of mouse mode |
| Typing.RowOfDigits | modules-drivers/picocalc_keyboard_stm_mod/picocalc_kbd.c:250-281 | the keys of the digit row have the keycodes of their places on Linux's keyboard, by the character the firmware sends |
| Typing.RowOfQ | modules-drivers/picocalc_keyboard_stm_mod/picocalc_kbd.c:250-281 | so have those of the row below it |
| Typing.RowOfA | modules-drivers/picocalc_keyboard_stm_mod/picocalc_kbd.c:250-281 | and of the home row |
| Typing.RowOfZ | modules-drivers/picocalc_keyboard_stm_mod/picocalc_kbd.c:250-281 | and of the lowest row |
| Typing.FunctionKeys | modules-drivers/picocalc_keyboard_stm_mod/picocalc_kbd.c:250-281 | the function keys follow Caps Lock in order, and R-shift adds five to the first five |
| Typing.OtherKeys | modules-drivers/picocalc_keyboard_stm_mod/picocalc_kbd.c:250-281 | Esc, Backspace, Tab, Enter, Space and Caps Lock |
| Typing.CursorKeys | modules-drivers/picocalc_keyboard_stm_mod/picocalc_kbd.c:250-281 | arrows, Insert, Delete, Home, End and Pause |
| Typing.FnKeys | modules-drivers/picocalc_keyboard_stm_mod/picocalc_kbd.c:207-302 | what R-shift makes of the other keys, and that in mouse mode it gives arrows and brackets back |
| KbdDriver.Driver.KeyDispatch | modules-drivers/picocalc_keyboard_stm_mod/picocalc_kbd.c:637-845 | the handler's fields change as the event function says, for every key and state |
| KbdDriver.Driver.KeyPress | modules-drivers/picocalc_keyboard_stm_mod/picocalc_kbd.c:752-844 | a press locks how the key is reported, by mouse mode and R-shift at that moment, and a repeated press changes nothing |
| KbdDriver.Driver.KeyRelease | modules-drivers/picocalc_keyboard_stm_mod/picocalc_kbd.c:714-750 | a release pairs with the locked record and frees it |
| KbdDriver.Driver.ModifierEvent | modules-drivers/picocalc_keyboard_stm_mod/picocalc_kbd.c:653-686 | flag, report and R-shift supplement of a modifier |
| KbdDriver.Driver.CapsEvent | modules-drivers/picocalc_keyboard_stm_mod/picocalc_kbd.c:688-712 | Caps Lock toggles; with R-shift it ends all mouse motion and switches mouse mode |
| KbdDriver.Driver.PressMouseKey | modules-drivers/picocalc_keyboard_stm_mod/picocalc_kbd.c:760-790 | arrows move and brackets click in mouse mode without R-shift |
| KbdDriver.Driver.PressFnKey | modules-drivers/picocalc_keyboard_stm_mod/picocalc_kbd.c:792-824 | with R-shift an action or a keycode of its own, or not handled |
| KbdDriver.Driver.MouseTick | modules-drivers/picocalc_keyboard_stm_mod/picocalc_kbd.c:505-570 | 256 times the pixels reported on an axis with an arrow held, plus what is kept, is what was kept plus the increment for the time gone by, with the right sign; the timer goes on exactly while a direction is set, and nothing else changes |
| Pipeline.PhaseIsHeld | modules-drivers/picocalc_keyboard_stm_mod/picocalc_kbd.c:637-651 | on streams in the firmware's language, the driver's idea of a held key is the firmware's |
| Pipeline.NoneHeld | modules-drivers/picocalc_keyboard_stm_mod/picocalc_kbd.c:637-871 | when no slot of the firmware is down, the stream leaves no key held for the driver |
| Pipeline.System.FetchOne | modules-drivers/picocalc_keyboard_stm_mod/picocalc_kbd.c:431-456 | fetches the oldest event and stops at an empty queue, keeping what the driver saw a prefix of what the firmware reported |
| Pipeline.System.DispatchOne | modules-drivers/picocalc_keyboard_stm_mod/picocalc_kbd.c:851-871 | the driver's state is the event function over everything dispatched |
| Pipeline.System.Poll | modules-drivers/picocalc_keyboard_stm_mod/picocalc_kbd.c:851-871 | one poll empties queue and batch |
| Pipeline.System.Run | modules-drivers/picocalc_keyboard_stm_mod/picocalc_kbd.c:851-871 | every interleaving of scans, power button, fetches, dispatches and timer ticks keeps the coupling of firmware, queue and driver |
| Pipeline.System.OpenScan | modules-drivers/picocalc_keyboard_stm_mod/picocalc_keyboard_stm/keyboard.ino:284-404 | a scan with all switches open brings every slot in use closer to free, takes none and reports ten events at most |
| Pipeline.System.ScanOnce | modules-drivers/picocalc_keyboard_stm_mod/picocalc_keyboard_stm/keyboard.ino:284-404 | a scan in the whole system: every key's fate by its own switch, what was reported in order, and exactly when the queue loses some |
| Pipeline.System.NothingStuck | modules-drivers/picocalc_keyboard_stm_mod/picocalc_kbd.c:637-871 | no slot down, queue and batch empty: nothing is down in Linux |
| Pipeline.System.AllReleased | modules-drivers/picocalc_keyboard_stm_mod/picocalc_kbd.c:637-871 | after any run, two scans with all switches open and one poll leave Linux no key, button, shift or mouse motion and every record free, unless an event found the queue full |
| Strokes.PressOne | modules-drivers/picocalc_keyboard_stm_mod/picocalc_kbd.c:851-871 | end to end: with up to nine keys held, one more switch that closes takes the driver, after a scan and a poll, exactly where that press alone takes it; repeats and holds of the others change nothing, and no event is lost |
| Strokes.Stroke | modules-drivers/picocalc_keyboard_stm_mod/picocalc_kbd.c:834-844 | from rest, closing the switch of an ordinary key leaves exactly its keycode down in Linux, in mouse mode a button or nothing for arrows and brackets |
| Strokes.ShiftedStroke | modules-drivers/picocalc_keyboard_stm_mod/picocalc_kbd.c:801-841 | the same with R-shift held: KEY_RIGHTSHIFT and the keycode, unless the key is an action or has an Fn keycode |
| Strokes.LetGo | modules-drivers/picocalc_keyboard_stm_mod/picocalc_kbd.c:851-871 | after three open scans and a poll the keyboard is at rest again with nothing down, and no event was lost |
| Strokes.OneNewKey | modules-drivers/picocalc_keyboard_stm_mod/picocalc_keyboard_stm/keyboard.ino:302-400 | during a scan with one newly closed key the driver hears of its press and nothing else new |
| Strokes.HeldKeyIsQuiet | modules-drivers/picocalc_keyboard_stm_mod/picocalc_keyboard_stm/keyboard.ino:250-269 | a held key that stays closed reports nothing new |
| MouseMotion.SpeedInRange | modules-drivers/picocalc_keyboard_stm_mod/picocalc_kbd.c:528-540 | the speed stays between the two tunables, whichever is larger |
| MouseMotion.SpeedNeverDrops | modules-drivers/picocalc_keyboard_stm_mod/picocalc_kbd.c:528-540 | the speed never falls with time if and only if base is at most max or the ramp is zero |
| MouseMotion.SpeedIsLine | modules-drivers/picocalc_keyboard_stm_mod/picocalc_kbd.c:531-539 | during the ramp the speed is the straight line from base to max, rounded towards base by less than one pixel a second, and max after it |
| MouseMotion.SecondOfUnits | modules-drivers/picocalc_keyboard_stm_mod/picocalc_kbd.c:542-542 | the hundred ticks of a second at a speed make up its pixels, less than a hundred units of 256 to the pixel short |
| MouseMotion.UnitsBegin | modules-drivers/picocalc_keyboard_stm_mod/picocalc_kbd.c:521-542 | nothing is added within the delay, and after it what the time into the ramp gives |
| MouseMotion.JumpsItsWay | modules-drivers/picocalc_keyboard_stm_mod/picocalc_kbd.c:584-592 | the first arrow jumps by the initial step left, right, up or down as it says |
| MouseMotion.NoOverflow | modules-drivers/picocalc_keyboard_stm_mod/picocalc_kbd.c:528-548 | under the stated bound on the tunables no product or sum leaves a 32-bit int |
| MouseMotion.Mover.Tick | modules-drivers/picocalc_keyboard_stm_mod/picocalc_kbd.c:505-570 | nothing before the delay; afterwards 256 times the pixels reported on an axis with an arrow held, plus what is kept, is what was kept plus the increment, with the right sign; the timer goes on exactly while a direction is set |
| MouseMotion.Mover.StartMove | modules-drivers/picocalc_keyboard_stm_mod/picocalc_kbd.c:572-596 | the first direction jumps, restarts the count and schedules the timer, a later one only joins in, a repeated one changes nothing |
| MouseMotion.Mover.StopMove | modules-drivers/picocalc_keyboard_stm_mod/picocalc_kbd.c:598-603 | one direction ends, the others and their remainders go on, the timer is cancelled with the last |
| MouseMotion.Mover.Advance | modules-drivers/picocalc_keyboard_stm_mod/picocalc_kbd.c:547-552 | whole pixels out, less than one kept, none lost |
| MouseMotion.Session | modules-drivers/picocalc_keyboard_stm_mod/picocalc_kbd.c:505-603 | over every session of presses, releases, ticks and new tunables, per axis: 256 times the sum of the pixels that the ticks since the last start from rest reported, plus what is kept, equals the sum of the increments of the ticks past the delay with an arrow of that axis held; every report goes the way its arrows say |
| MouseMotion.SteadySecond | modules-drivers/picocalc_keyboard_stm_mod/picocalc_kbd.c:505-570 | a hundred ticks past the ramp report max pixels, or one fewer, on each axis with an arrow held |
| MouseMotion.Perform | modules-drivers/picocalc_keyboard_stm_mod/picocalc_kbd.c:505-603 | one step: its report, its remainders and the times, directions and tunables that decide the next increment |
| MouseMotion.Carry | modules-drivers/picocalc_keyboard_stm_mod/picocalc_kbd.c:547-563 | a step that keeps its own account keeps the session's |
| LogRing.StepKeeps | src/hal/project/rk3506-mcu/src/main.c:59-89 | every single access of either side keeps the ring's invariant, also in the middle of a copy |
| LogRing.WriteEndKeeps | src/hal/project/rk3506-mcu/src/main.c:86-86 | publishing head makes the copied bytes unread ones, in order, whatever order they were copied in |
| LogRing.ReadEndKeeps | src/kernel-6.1/drivers/misc/mculog.c:74-74 | publishing tail gives the writer exactly the bytes read |
| LogRing.OutputIsNext | src/kernel-6.1/drivers/misc/mculog.c:58-72 | what a completed copy has fetched, in any order, is the next bytes in order |
| LogRing.RunKeeps | src/kernel-6.1/drivers/misc/mculog.c:39-78 | so does every interleaving of any length, the bytes of a copy taken in any order |
| LogRing.DeliversPrefix | src/kernel-6.1/drivers/misc/mculog.c:39-78 | in every interleaving the reader gets a prefix of the accepted bytes, at most max_size - 1 are unread, and head equals tail if and only if all are read |
| LogRing.NeverOverwrites | src/hal/project/rk3506-mcu/src/main.c:73-86 | no step of any run changes a byte accepted and not delivered |
| LogRing.ReadReturnsNext | src/kernel-6.1/drivers/misc/mculog.c:55-75 | a read that completes delivers exactly the next bytes |
| LogTransfers.ReadDelivers | src/kernel-6.1/drivers/misc/mculog.c:44-75 | from every reachable state with n bytes unread: a read that begins and, whatever the writer does in between, copies all it took, in any order, delivers exactly the next min(count, n) bytes |
| LogTransfers.ReadsNothing | src/kernel-6.1/drivers/misc/mculog.c:44-53 | with nothing unread a read changes nothing, and one that faults leaves everything to be read again |
| LogRing.WriteTakesWhatFits | src/hal/project/rk3506-mcu/src/main.c:73-77 | a write takes as long a prefix as there is room for when it looks |
| LogTransfers.WriteAccepts | src/hal/project/rk3506-mcu/src/main.c:73-86 | a write that has stored all it found room for, whatever the reader does in between, has exactly those bytes accepted |
| LogRing.ContentsArePending | src/kernel-6.1/drivers/misc/mculog.c:39-78 | in every interleaving the bytes between the indices are those accepted and not delivered |
| LogRing.StoredAppends | src/hal/project/rk3506-mcu/src/main.c:76-86 | bytes stored from head on, around the end, are appended to the unread ones |
| LogRing.TakenDrops | src/kernel-6.1/drivers/misc/mculog.c:55-74 | advancing tail removes that many of the oldest |
| LogRing.LogBuffer.Write | src/hal/project/rk3506-mcu/src/main.c:59-89 | appends as much as fits and returns how much that was, or -1 for other files |
| LogRing.LogBuffer.Read | src/kernel-6.1/drivers/misc/mculog.c:39-78 | returns and removes the oldest bytes, and removes nothing when the copy to user space faults |
| LogTransfers.ReadAlone | src/kernel-6.1/drivers/misc/mculog.c:39-78 | the function undisturbed leaves memory and indices, and returns the bytes, as its steps in the machine do |
| LogTransfers.WriteAlone | src/hal/project/rk3506-mcu/src/main.c:59-89 | so does the writing one |
| LogRing.InitialInv | src/kernel-6.1/drivers/misc/mculog.c:143-144 | indices at zero are a good start, whatever the memory holds |

## Left out

- ConsoleModel.Console.Scroll: rows drawn off the screen may reach rows of memory behind the text buffer
  (fbcon.c:1540-1543, 1588-1591); that memory is a parameter with any contents.
- ConsoleRun.Run: after a scroll that fails the exact condition screen and buffer differ, and the run is followed no
  further.
- ConsoleModel.Console.LeaveHistory: a visible cursor (`vc_deccm` = 1); with the cursor hidden `fbcon_cursor` returns
  before leaving the scrolled-back view.
- ConsoleModel.Console.Scrolldelta: the foreground console in text mode, a ring of more than five rows, no boot logo.
  The cursor's own drawing, and the hardware scrollback used without a ring, are not modelled.
- ConsoleModel.Console.MoveText: vt.c, which moves the buffer when fbcon does not, is not part of this model; its move
  of whole rows is taken as given.
- ConsoleModel.Console.Write: that the console core stores a run before it has it drawn, with the cursor erased, is
  taken as given.
- ConsoleModel.Console.Erase: so is that it blanks the buffer before it has the rectangle cleared.
- DisplayModel.Display.BmoveRec: the comment in the source speaks of four blits; three are enough, and that is proved.
- Addresses are row and cell indices, except in `PositionMaps`, where they are bytes; wrap-around of pointers for
  scrollback distances near the size of memory, and the 16-bit width of yscroll, are not modelled.
- Panning down compares an unsigned difference, so the window moves only when yscroll is at most count; the model
  does the same.
- Blitters.Blitter.Putcs: the font buffer is taken to hold each glyph turned with the screen (fbcon_rotate.c is not
  part of this model), the padding routines, fillrect, copyarea and imageblit are known by their contracts,
  attribute effects on glyphs (underline, bold, reverse) and the failed allocation of their buffer are left out.
- Glass.Run: fb_pan_display is not part of this model and is taken to accept the offsets. `fbcon_clear_margins`, which
  blanks what the rows leave of the glass, is left out, with the dots it takes from a hidden row of a panning display
  whose height is no multiple of the font's. Rows fill the glass (`vc_rows` = yres / font height).
- Picture.Clear: the erase character's glyph is empty.
- Picture.Putcs: colour consoles; monochrome attributes are left out with the effects above.
- Blitters.Blitter.CursorOnCell: where the cursor is, not its shape, mask or blinking.
- Mode setting, resizing, fonts, palettes, blanking, margins, console switching and inactive consoles.
- ConsoleMap.Console.DoTakeover: the console layer is taken to bind fbcon exactly when its start-up opens the
  framebuffer; do_unbind_con_driver's answer is a parameter. Deferred takeover, `fbcon_fb_unregistered`'s direct
  remapping, `con2fb_map_boot` and the drawing that follows a remapping are left out.
- Pipeline.System.AllReleased: holds when no event found the queue full, with modifiers reported as keys and
  characters left alone (`CFG_REPORT_MODS` set, `CFG_USE_MODS` clear), the callback started (`keycb_start` set), and no
  failed I2C read. Queue operations are atomic: the firmware's count has no protection against its own interrupt, and
  no claim is made about that.
- Strokes.PressOne: one scan and then one poll, undisturbed by further scans or the power button; the other switches
  stay as they are.
- Pipeline.System.FetchOne: the I2C read succeeds.
- Firmware.Keyboard.KeyCb: the interrupt flags it sets are left out.
- Firmware.Keyboard.TransitionTo: modifiers reported as keys, characters left alone.
- Firmware.Keyboard.StartItem: the firmware's own caps and num lock flags are left out.
- Firmware.Keyboard.KeyboardProcess: the pin readings are a parameter, clock readings are arbitrary; the joystick and
  matrix bits, LEDs, battery, power management and backlight are left out.
- KbdDriver.Driver.KeyDispatch: the time of the last key press is left out; keycode values are those of Linux's
  input-event-codes.h. The documentation gives scancode 0x1A for Caps Lock and an array of 256 records; the code has
  0xC1 and one record a physical key.
- KbdDriver.Driver.CapsEvent: the flash on switching mouse mode is left out.
- KbdDriver.Driver.PressFnKey: the backlight actions themselves are left out.
- MouseMotion.NoOverflow: the bound on the tunables is explicit because sysfs accepts larger ones, for which the
  source overflows; elapsed time is not cut to 32 bits.
- LogRing.DeliversPrefix: one writer and one reader at a time, sequentially consistent memory, a ring of at least one
  byte. The handshake at start-up is left out, and the file number is checked before the ring is looked at.
