# Verified models from the Jornada 820 Linux port

A Dafny model of the parts of the repository where the code itself decides something hard: the frame
buffer console of the kernel, the DMA pool allocator and the PCMCIA timing of the SA-1100 port, and
three pieces of the HaRET boot loader. `dafny verify dfyconfig.toml` checks all of it.

Code that updates state in place is a class whose methods follow the source branch by branch; each
method is proved against a specification function or predicate, and the lemmas are about those. What the
smallest of them mean (a copied cell, an operator, a typed byte, a register field, an inverted attribute,
a digit) is stated separately, by number and without them.

* **Frame buffer console** (`fbcon.c`). `Grid.dfy` has rows of cells, driver copies and clears, and the
  cyclic row order of a wrapped screen. `ScrollModes.dfy` says what moving the start of the screen does.
  `SoftbackRing.dfy` is the scrollback ring, `ConsoleView.dfy` the console as a user sees it: a history,
  a screen, and how far the view is scrolled back. `Fbcon.dfy` is the driver, and its main results say
  that every scroll and every look back is one step of that abstract console. `ScreenPos.dfy` has
  positions on a scrolled-back screen and the inversion of a region, `Attributes.dfy` what inverting does to
  a cell; `Fonts.dfy` the counted user fonts;
  `FbconExamples.dfy` runs in which the driver goes wrong.
* **DMA pool** (`pcipool.c`): `PciPool.dfy`, with runs in which it goes wrong in `PciPoolExamples.dfy`.
* **Script expressions** (`script.cpp`): `Strtoul.dfy` the number reader; `ScriptEval.dfy` the evaluator
  as a function of the remaining text; `Operators.dfy` what the operators mean, by the laws their results
  obey; `ScriptTrees.dfy` expression trees, their values by those laws and their texts;
  `ScriptParsing.dfy` the proof that the text of a tree evaluates to its value; `ScriptTexts.dfy` texts of
  decimal numbers and operators; `ScriptReader.dfy` the evaluator as it runs, with one cursor and one static
  token buffer.
* **Physical memory windows** (`memory.cpp`): `PhysMem.dfy` over the move-to-front lists of `Recency.dfy`.
* **PCMCIA timing** (`sa1100.h`, `sa1100_generic.c`): `Pcmcia.dfy`.
* **Telnet line editor** (`terminal.cpp`): `Terminal.dfy`.

`Arith.dfy` holds the word size and facts about division that several of them use, `Options.dfy` an option type.

## Where the code does not do what it is for

Each of these is proved with the exact condition under which the code does, and most with a run or an
input where it does not.

* A redraw scroll (`fbcon.c:1390`, `1450`) clears physical rows without splitting them at the wrap, so in
  wrap mode the freed rows beyond the wrap keep their old contents on the glass. The glass is right exactly
  if those rows were blank already (`Fbcon.Console.ScrollConsole`); in the other modes it always is. Run:
  `FbconExamples.StaleRow`.
* An upward scroll of a blanked console that may soft-blank notes rows while the view cannot be brought
  back, which leaves `softback_lines` behind; `Fbcon.Console.Scroll` says exactly when the ring stays
  consistent, and `ScrollConsole` exactly when a scroll is a step of the abstract console (a console that
  is blanked for good notes no rows at all). Run: `FbconExamples.NotedWhileBlanked`.
* Taking the boot logo down (`fbcon.c:2073-2095`) moves `softback_in` but not `softback_curr`:
  `Fbcon.Console.RetireLogo`, consistent exactly if no row was in the ring to take back (or the logo had no
  lines). Run: `FbconExamples.LogoTakenDown`.
* `fbcon_set_font` shares a font with the same bytes and width whatever its number of characters:
  `Fonts.FontTable.SetFont` says exactly when the console gets the number asked for. Run:
  `Fonts.CountLost`. And it frees the block it settled on when the width turns out not to be drawable
  (`fbcon.c:1702-1706`), though another console may be using it; that happens exactly if some console has
  that font already. Run: `Fonts.FreedInUse`.
* `pci_pool_create` adds `align + 1` instead of `align - 1` before masking, so the rounded size is not
  always the least multiple (`PciPool.RoundingIsExactly`); and it rounds in 32 bits, so that a huge size
  becomes 0 and is divided by (`PciPool.CreatedIsUsable`). Inputs: `PciPool.RoundedTooFar`,
  `PciPool.HugeSizeDivides`.
* `pci_pool_free` takes a block back by any address inside it, and for an address behind the last block of
  a page it may write past the bitmap: `PciPool.Pool.Free` says for every address what happens. Runs:
  `PciPoolExamples.FreedFromInside`, `PciPoolExamples.WritesPastBitmap`.
* `pool_find_page` computes the end of a page in 32 bits, which is 0 for a page that ends at 2^32. An
  outstanding block is lost when it is given back exactly if it lies in such a page
  (`PciPool.Pool.FindPage`, `PciPool.Pool.Free`). Run: `PciPoolExamples.LostAtTop`.
* `sa1100_pcmcia_mecr_bs` underflows for fast cycles and `MECR_SET` does not mask its value:
  `Pcmcia.SafeExactlyInRange` and `Pcmcia.FieldsIndependent`. Inputs: `Pcmcia.OutOfRangeCounts`.
* `memPhysWriteFile` aligns the address of every chunk down, so from an address that is not word aligned
  it writes the wrong bytes: `PhysMem.RequestedRange`. Input: `PhysMem.WrongByte`.
* The token buffer of the script reader is static, and a name whose arguments were not accepted is looked
  up once more in it. So an index out of the range of a bit set is refused exactly if the last token of
  the index names no user variable (`ScriptParsing.RefusedExactly`), and a call that is not closed is
  accepted exactly if its last token does (`ScriptParsing.UnclosedExactly`). Inputs:
  `ScriptParsing.BadIndexAccepted`, `ScriptParsing.UnclosedCallAccepted`.
* This `isspace` holds of NUL and the first loop of `strtoul` has no other end, so `strtoul` stays inside
  the string exactly if there is something in it that is not white space (`Strtoul.StrToUL`). Input:
  `Strtoul.EmptyRunsOff`. The script reader only hands it tokens that start with a digit.
* `strtoul` reads a minus sign and ignores it; the value is the negative one exactly for 0 and 2^31:
  `Strtoul.MinusRightExactly`.
* `Readline` returns the part of the line before the cursor, which is the line exactly if the cursor is at
  its end (`Terminal.ReturnedWhole`); and the telnet erase-character command only moves the cursor, which
  is erasing exactly if there is nothing to erase (`Terminal.EraseOnlyMoves`).

Operators of one level group to the right (`ScriptParsing.GroupsRight`), as the code has it.

## Model

| member | source | states |
|---|---|---|
| Fbcon.Console.ScrollConsole | linux/kernel/drivers/video/fbcon.c:1315-1460 | a scroll is one step of the abstract console (rows pushed off join the history, the screen is the list-of-rows scroll, the view is at the screen) exactly if the console is not blanked, or the view is at the screen and no row that should be noted is lost; then the glass shows the new view exactly if no redraw clear crosses the wrap over rows that were not blank, and always outside wrap mode |
| Fbcon.Console.Scroll | linux/kernel/drivers/video/fbcon.c:1315-1460 | which strategy ran, what history, screen buffer and visible rows are afterwards and where the screen starts, for blanked consoles too, that the bounds on yscroll are kept, and exactly when the ring stays consistent |
| Fbcon.Console.ScrollGlass | linux/kernel/drivers/video/fbcon.c:1336-1445 | in move, wrap and pan mode, with either guard outcome, the visible rows are scrolled as a plain list of rows with blank rows inserted, and yscroll stays in the range of its mode |
| Fbcon.Console.GoesToRedraw | linux/kernel/drivers/video/fbcon.c:1341-1446 | the tests of the strategies, upward and downward, that end in a redraw |
| Fbcon.Console.StartUp | linux/kernel/drivers/video/fbcon.c:1351-1385 | copying the rows above, moving the start of the screen, copying the rows below and clearing is the list scroll of the region |
| Fbcon.Console.StartDown | linux/kernel/drivers/video/fbcon.c:1411-1445 | the same downwards |
| Fbcon.Console.YwrapUp | linux/kernel/drivers/video/fbcon.c:980-994 | each visible row shows the row `count` further down the cyclic buffer |
| Fbcon.Console.YwrapDown | linux/kernel/drivers/video/fbcon.c:997-1011 | each visible row shows the row `count` further up the cyclic buffer |
| Fbcon.Console.YpanUp | linux/kernel/drivers/video/fbcon.c:1014-1033 | the start stays in the buffer, also when it jumps back after one copy of the screen, and each row shows the one `count` below |
| Fbcon.Console.YpanDown | linux/kernel/drivers/video/fbcon.c:1036-1055 | the same upwards |
| ScrollModes.PanUpJump | linux/kernel/drivers/video/fbcon.c:1014-1033 | why the guard on yscroll makes the jump back show the same rows |
| ScrollModes.StartMovedUp | linux/kernel/drivers/video/fbcon.c:1351-1385 | the four steps of a start-moving scroll compose to the list scroll, for every region |
| ScrollModes.StartMovedDown | linux/kernel/drivers/video/fbcon.c:1411-1445 | the same downwards |
| Fbcon.Console.BmoveRec | linux/kernel/drivers/video/fbcon.c:1491-1520 | for every overlap and wrap position the recursive copy is one simultaneous rectangle copy in logical rows, cell by cell, and changes no other cell |
| Fbcon.Console.BmoveUnsplit | linux/kernel/drivers/video/fbcon.c:1515-1520 | the driver copies the recursion ends in are asked for only between blocks that do not cross the wrap, and are the copy in logical rows, cell by cell |
| Grid.CopyUpSplit | linux/kernel/drivers/video/fbcon.c:1498-1514 | an upward overlapping copy may be cut anywhere if its first part goes first |
| Grid.CopyDownSplit | linux/kernel/drivers/video/fbcon.c:1498-1514 | a downward or sideways one if its last part goes first |
| Grid.CopyRotated | linux/kernel/drivers/video/fbcon.c:1515-1520 | a physical copy between blocks that do not cross the wrap is the logical copy |
| Grid.CopiedIsRect | linux/kernel/drivers/video/fbcon.c:1515-1520 | the driver's copy of a rectangle of rows is the copy cell by cell, and nothing else is |
| Grid.ClearedIsRect | linux/kernel/drivers/video/fbcon.c:841-852 | the driver's clear is the clear cell by cell |
| Grid.RealYIsCyclic | linux/kernel/drivers/video/fbcon.c:815-821 | the physical rows follow the logical ones modulo the rows of the buffer |
| Fbcon.Console.Bmove | linux/kernel/drivers/video/fbcon.c:1463-1489 | in logical rows, each cell of the destination takes the cell as far away in the source as the corners are and every other cell is kept, also when the rectangle is empty; nothing happens on a console that is blanked for good |
| Fbcon.Console.Clear | linux/kernel/drivers/video/fbcon.c:824-857 | in logical rows, exactly the cells of the rectangle become the erase character, across the wrap and also when it is empty; nothing happens on a console that is blanked for good |
| Fbcon.Console.Redraw | linux/kernel/drivers/video/fbcon.c:1146-1199 | the screen buffer rows are shifted as if copied one by one, the ring is untouched, and the glass follows if it showed the rows to be redrawn |
| Fbcon.Console.Putcs | linux/kernel/drivers/video/fbcon.c:1150-1185 | the driver draws each character of a run with the attribute of the first, which is right only because every run handed to it has one attribute |
| Fbcon.Console.DrawCells | linux/kernel/drivers/video/fbcon.c:1150-1185 | exactly the cells in which the two rows differ are drawn, and the row is copied if asked to |
| Fbcon.Console.StepCell | linux/kernel/drivers/video/fbcon.c:1152-1175 | after each cell the pending run has one attribute and everything before it is drawn |
| Fbcon.Console.RedrawScroll | linux/kernel/drivers/video/fbcon.c:1387-1456 | a redraw scroll makes the screen buffer the list scroll; if the glass agreed with it before it does so afterwards exactly if the rows an unsplit clear misses were blank |
| Fbcon.Console.RedrawSoftback | linux/kernel/drivers/video/fbcon.c:1057-1143 | if the glass showed the view at the old position it shows the view at the new one, clamped to the history, though equal cells are skipped |
| Fbcon.Console.SeekSoftback | linux/kernel/drivers/video/fbcon.c:1064-1094 | in all clamping and wrapping cases the new pointer is as many rows before softback_in as the new line count, which is clamped to the history |
| Fbcon.Console.ScrollDelta | linux/kernel/drivers/video/fbcon.c:2061-2140 | a look back or forward is one step of the abstract console and keeps the ring pointers consistent |
| Fbcon.Console.RetireLogo | linux/kernel/drivers/video/fbcon.c:2073-2095 | the newest ring rows go back to the rows of the logo; the ring pointers agree afterwards exactly if none was taken |
| Fbcon.Console.SoftbackNote | linux/kernel/drivers/video/fbcon.c:1291-1313 | the history becomes the last capacity - 1 rows of the old history followed by the noted rows, which adds one batch to any run of notes; the view returns to the screen |
| Fbcon.Console.BeginScroll | linux/kernel/drivers/video/fbcon.c:1325-1341 | the ring stays consistent exactly if nothing is noted, the view was at the screen, or the console is not blanked |
| FbconExamples.StaleRow | linux/kernel/drivers/video/fbcon.c:1387-1396 | a run from a console just set up after which the glass does not show the view |
| FbconExamples.NotedWhileBlanked | linux/kernel/drivers/video/fbcon.c:1325-1341 | a run after which the line count is wrong |
| FbconExamples.LogoTakenDown | linux/kernel/drivers/video/fbcon.c:2073-2095 | a run after which the view pointer is wrong |
| Fbcon.Console.constructor | linux/kernel/drivers/video/fbcon.c:595-615 | a console set up shows its screen, has an empty ring, and keeps every invariant |
| Fbcon.Console.SetOrigin | linux/kernel/drivers/video/fbcon.c:2142-2147 | the view returns to the screen unless the console is blanked |
| SoftbackRing.NoteRow | linux/kernel/drivers/video/fbcon.c:1297-1309 | storing a row at softback_in and pushing softback_top along when the ring is full appends it and forgets the oldest row beyond capacity - 1 |
| SoftbackRing.NotedToIsLastN | linux/kernel/drivers/video/fbcon.c:1291-1313 | noting rows one by one keeps the last capacity - 1 of history and rows |
| SoftbackRing.NotedIsLastN | linux/kernel/drivers/video/fbcon.c:1291-1313 | after any run of notes, started on an empty ring, the ring holds exactly the last rows ever noted, in order |
| SoftbackRing.ViewIsWindow | linux/kernel/drivers/video/fbcon.c:1095-1143 | what the view pointer reads is a window on the history followed by the screen |
| SoftbackRing.NextViewPtr | linux/kernel/drivers/video/fbcon.c:1135-1142 | stepping a read pointer with its two wrap tests follows the view |
| ConsoleView.RunKeepsHistory | linux/kernel/drivers/video/fbcon.c:1291-1313 | over any run of scrolls and looks back the history is the last rows ever pushed off the screen and the view stays inside it |
| ScreenPos.Layout.GetXYInverts | linux/kernel/drivers/video/fbcon.c:1990-2039 | fbcon_getxy inverts fbcon_screen_pos on every visible cell and gives the position of the next row, across the ring wrap and the seam to the screen, and on a console in the background, which is not scrolled back |
| ScreenPos.Layout.ScreenPosIsView | linux/kernel/drivers/video/fbcon.c:1990-2004 | fbcon_screen_pos is the address of the cell in the view, or on the screen of a console in the background |
| ScreenPos.Layout.GetXYElsewhere | linux/kernel/drivers/video/fbcon.c:2031-2035 | any other position of a console that is not scrolled back is taken for its first cell |
| ScreenPos.InvertRegion | linux/kernel/drivers/video/fbcon.c:2043-2059 | exactly the cells of the region, along the view, are inverted: foreground and background exchanged, or the reverse bit changed, and every other bit kept |
| Attributes.InvertCellInverts | linux/kernel/drivers/video/fbcon.c:2046-2052 | the masks and shifts exchange bits 8-10 with 12-14, or 9-11 with 13-15 for a font of 512 characters, or change bit 11 without colour, keep every other bit, and are the only change that does |
| ScreenPos.InvertedRegionTwice | linux/kernel/drivers/video/fbcon.c:2043-2059 | inverting the same region twice restores memory, in all three attribute layouts |
| Fonts.FontTable.SetFont | linux/kernel/drivers/video/fbcon.c:1902-1916 | the console has the new glyphs; the first console with the same bytes and width shares its block, and then its number of characters is the one asked for exactly if it is that block's; counts equal users and equal fonts share one block, except that a width that cannot be drawn frees the block of such a console, if there is one, while it is in use |
| Fonts.CountLost | linux/kernel/drivers/video/fbcon.c:1902-1916 | a run after which a console that asked for 512 characters has a font of 256 |
| Fonts.FreedInUse | linux/kernel/drivers/video/fbcon.c:1902-1916 | a run after which a console uses a block that is gone |
| Fonts.FontTable.constructor | linux/kernel/drivers/video/fbcon.c:1627-1634 | consoles without fonts keep every invariant |
| Fonts.FontTable.CopyFont | linux/kernel/drivers/video/fbcon.c:1811-1826 | error cases, a width this console cannot draw among them, the font and width taken, and counts equal users |
| Fonts.FontTable.DoSetFont | linux/kernel/drivers/video/fbcon.c:1693-1809 | a width that cannot be drawn is refused and frees the data exactly if it is a user font that is not being copied, after which counts equal users exactly if nobody used it; otherwise the console changes font and every count still equals its users: the old block is freed exactly if it has none |
| Fonts.FontTable.FreeFont | linux/kernel/drivers/video/fbcon.c:1627-1634 | the console has no font and every count still equals its users |
| Fonts.FontTable.SetDefFont | linux/kernel/drivers/video/fbcon.c:1918-1936 | the console takes a built-in font, or nothing changes if there is none of that name or it cannot be drawn |
| Fonts.FontTable.SetupFont | linux/kernel/drivers/video/fbcon.c:618-650 | the font of the first other live console on the same frame buffer that has one is shared and counted if its width can be drawn, otherwise the default font is taken |
| Fonts.FontTable.BlocksAreTheUsedOnes | linux/kernel/drivers/video/fbcon.c:1627-1634 | a block exists exactly while some console uses it |
| Fonts.UsersUpdate | linux/kernel/drivers/video/fbcon.c:1712-1720 | changing one console moves one reference |
| PciPool.Pool.Alloc | linux/kernel/arch/arm/mach-sa1100/pcipool.c:241-297 | the first free block of the first page that has one is handed out, with both its addresses; a page is added only if every block of every page is taken, and nothing is given only if that fails too |
| PciPool.Pool.AllocPage | linux/kernel/arch/arm/mach-sa1100/pcipool.c:140-167 | a new page goes to the front with every bit set, and nothing else changes |
| PciPool.Pool.Free | linux/kernel/arch/arm/mach-sa1100/pcipool.c:331-376 | for every address: an outstanding block's address is refused exactly if its page ends at 2^32, and otherwise ends exactly that block; any address inside an outstanding block of another page ends that block; one in a free block or in no page changes nothing; and exactly for one behind the last block of a page whose bitmap is full to the last word the bit written lies outside the bitmap |
| PciPool.Pool.FindPage | linux/kernel/arch/arm/mach-sa1100/pcipool.c:300-319 | the one page an address is in is found exactly if it does not end at 2^32 |
| PciPoolExamples.LostAtTop | linux/kernel/arch/arm/mach-sa1100/pcipool.c:300-343 | a run after which a block given back is still outstanding |
| PciPoolExamples.FreedFromInside | linux/kernel/arch/arm/mach-sa1100/pcipool.c:338-367 | a run in which an address inside a block takes it back |
| PciPoolExamples.WritesPastBitmap | linux/kernel/arch/arm/mach-sa1100/pcipool.c:338-367 | a run, from the creation of the pool, in which the bit written lies outside the bitmap |
| PciPool.Pool.Destroy | linux/kernel/arch/arm/mach-sa1100/pcipool.c:202-228 | idle pages are given back and busy ones leaked, each page once |
| PciPool.FreeUndoesHand | linux/kernel/arch/arm/mach-sa1100/pcipool.c:264-367 | clearing and setting a free bit restores the bitmap |
| PciPool.IsPageBusy | linux/kernel/arch/arm/mach-sa1100/pcipool.c:170-179 | busy exactly if some block of the page is handed out, spare tail bits notwithstanding |
| PciPool.FindFree | linux/kernel/arch/arm/mach-sa1100/pcipool.c:253-270 | the lowest free block of the bitmap, or none if all are taken |
| PciPool.OutstandingDisjoint | linux/kernel/arch/arm/mach-sa1100/pcipool.c:241-297 | outstanding blocks are pairwise disjoint |
| PciPool.BlockInside | linux/kernel/arch/arm/mach-sa1100/pcipool.c:253-297 | every block is a multiple of the size inside the allocation |
| PciPool.Conservation | linux/kernel/arch/arm/mach-sa1100/pcipool.c:241-376 | outstanding plus free blocks are always pages times blocks per page |
| PciPool.CreatedIsUsable | linux/kernel/arch/arm/mach-sa1100/pcipool.c:90-137 | exactly which sizes and allocations are refused, that a pool made holds at least one block a page, and exactly when the rounding wraps round to a size of 0 that is then divided by |
| PciPool.RoundingIsExactly | linux/kernel/arch/arm/mach-sa1100/pcipool.c:98-105 | for the powers of two that alignments must be, exactly when the rounded size holds a block and exactly when it is the least multiple of the alignment that does |
| PciPool.MaskIsFloor | linux/kernel/arch/arm/mach-sa1100/pcipool.c:104 | masking with a power of two less one keeps the multiple of it that the number has reached |
| PciPool.RoundedTooFar | linux/kernel/arch/arm/mach-sa1100/pcipool.c:102-105 | seven bytes at alignment four take twelve, and an alignment that is no power of two gives no multiple |
| PciPool.HugeSizeDivides | linux/kernel/arch/arm/mach-sa1100/pcipool.c:102-127 | a size for which creation divides by zero |
| PciPool.Pool.constructor | linux/kernel/arch/arm/mach-sa1100/pcipool.c:116-127 | a pool made has no pages and keeps every invariant |
| Strtoul.StrToUL | haret-j820gnu/src/script.cpp:82-156 | it runs off the end of the string exactly if that is all white space, refuses exactly the bad bases, and otherwise gives the value of the longest run of digits if it fits 32 bits and ULONG_MAX if not, with the index after it |
| Strtoul.EmptyRunsOff | haret-j820gnu/src/script.cpp:62-90 | the empty string is one it runs off |
| Strtoul.MinusIgnored | haret-j820gnu/src/script.cpp:92-98 | a minus sign changes nothing but the index |
| Strtoul.MinusRightExactly | haret-j820gnu/src/script.cpp:92-156 | so the value is the negative one exactly for 0 and 2^31 |
| Strtoul.StepExact | haret-j820gnu/src/script.cpp:128-139 | neither half of the split step overflows 32 bits, together they are exact, and the test detects exactly the overflow |
| Strtoul.Accumulate | haret-j820gnu/src/script.cpp:125-140 | the digit loop: overflow exactly if the number does not fit, else its value, stopping at the first non-digit |
| Strtoul.DecimalRoundTrip | haret-j820gnu/src/script.cpp:82-156 | the decimal numeral of every 32-bit number reads back as that number without saying the base |
| Strtoul.NumeralRoundTrip | haret-j820gnu/src/script.cpp:82-156 | so does the numeral in every base from 2 to 36, with letters of either case |
| Strtoul.HexRoundTrip | haret-j820gnu/src/script.cpp:109-124 | and the hexadecimal one behind 0x or 0X, in either case |
| Strtoul.OctalRoundTrip | haret-j820gnu/src/script.cpp:109-124 | and the octal one behind 0 |
| Strtoul.HexNeedsDigit | haret-j820gnu/src/script.cpp:113-118 | 0x that no hexadecimal digit follows is the number 0 with the x left over |
| Strtoul.CharacterClasses | haret-j820gnu/src/script.cpp:62-66 | the alphanumeric characters are the digits of base 36 in both cases, and so on; white space is NUL to CR and the blank |
| ScriptReader.Reader.GetExpression | haret-j820gnu/src/script.cpp:407-541 | the running evaluator ends as the evaluator function says: value, cursor and token buffer, for every text |
| ScriptReader.Reader.NextToken | haret-j820gnu/src/script.cpp:248-287 | get_token reads a quoted or alphanumeric token, cut to the buffer |
| ScriptReader.Reader.ReadArgs | haret-j820gnu/src/script.cpp:543-580 | get_args reads as the argument function says |
| ScriptReader.Reader.ReadVar | haret-j820gnu/src/script.cpp:329-369 | GetVar reads a variable of any kind as the function says |
| ScriptReader.Reader.Operate | haret-j820gnu/src/script.cpp:491-515 | the operator switch does what the evaluator function says, and divides by zero exactly if it does |
| ScriptReader.Reader.FindVariable | haret-j820gnu/src/script.cpp:321-327 | the first variable of that name, upper and lower case alike |
| ScriptEval.SameLetter | haret-j820gnu/src/script.cpp:69-77 | two characters of a name are taken for the same exactly if they are, or are the two cases of one letter |
| Operators.ApplyComputes | haret-j820gnu/src/script.cpp:491-515 | each binary operator obeys its law: sums, differences and products modulo 2^32, quotient and remainder with a remainder below the divisor, and bitwise or, xor and and |
| Operators.ComputesOnce | haret-j820gnu/src/script.cpp:491-515 | and no other word obeys it |
| Operators.UnaryApplyComputes | haret-j820gnu/src/script.cpp:427-441 | negation added back gives 0 modulo 2^32, and complement changes all 32 bits |
| Operators.Levels | haret-j820gnu/src/script.cpp:477-515 | which characters are operators, and at which level each binds |
| ScriptTrees.LongToken | haret-j820gnu/src/script.cpp:275-284 | a name of 1000 characters or more is cut after 999, and the rest is read as another |
| ScriptTrees.QuotedToken | haret-j820gnu/src/script.cpp:262-284 | text between two quotation marks of one kind is one token, also if the second is missing at the end |
| ScriptTrees.InRangeNotRefused | haret-j820gnu/src/script.cpp:344-354 | evaluating a tree that stays inside its bit sets is never refused |
| ScriptParsing.EvaluatesTrees | haret-j820gnu/src/script.cpp:407-580 | the text of any expression tree, with any spacing, parentheses and calls, evaluates to the value of the tree, fixed by the laws of its operators, and the cursor stops right after it; or it faults or is refused exactly if the tree does or is; a tree that stays inside its bit sets is never refused |
| ScriptParsing.RefusedExactly | haret-j820gnu/src/script.cpp:344-467 | an index out of range is refused exactly if the last token read with it names no user variable, whose value the call otherwise has |
| ScriptParsing.BadIndexAccepted | haret-j820gnu/src/script.cpp:183-184 | the index 100 into a set of bits 0 to 84 is accepted with the value 100 |
| ScriptParsing.UnclosedExactly | haret-j820gnu/src/script.cpp:465-473 | for every built-in function and every argument list whose closing parenthesis is missing, or replaced by something that is no operator, the call is accepted exactly if the arguments can be read that far and the last token names a user variable, whose value it then has |
| ScriptParsing.UnclosedGroupRefused | haret-j820gnu/src/script.cpp:417-421 | a parenthesis that is not closed is never accepted |
| ScriptParsing.SurplusRefused | haret-j820gnu/src/script.cpp:518-526 | nor is a closing one too many |
| ScriptParsing.ReadsArgs | haret-j820gnu/src/script.cpp:543-580 | an argument list evaluates to its values and its closing parenthesis is eaten once, or it faults or is refused as they do |
| ScriptParsing.ReadsGroup | haret-j820gnu/src/script.cpp:407-541 | a parenthesised expression is closed exactly once, whatever surrounds it |
| ScriptParsing.ReadsBinary | haret-j820gnu/src/script.cpp:475-541 | an operator gives the word that obeys its law for what its level binds, and the rest goes on with the result |
| ScriptParsing.GroupsRight | haret-j820gnu/src/script.cpp:475-541 | a - b - c is the text of a - (b - c) |
| ScriptTexts.BinaryText | haret-j820gnu/src/script.cpp:407-541 | two decimal numbers with an operator between them evaluate to the word that obeys the law of that operator |
| ScriptTexts.DivisionText | haret-j820gnu/src/script.cpp:507-515 | or fault if that is a division by 0 |
| ScriptTexts.UnaryText | haret-j820gnu/src/script.cpp:427-441 | a decimal number behind a unary operator evaluates likewise |
| ScriptTexts.TwoOperators | haret-j820gnu/src/script.cpp:475-541 | of two operators the first is applied first exactly if it is one of the second level and the other of the first |
| ScriptTexts.FiveMinusThree | haret-j820gnu/src/script.cpp:494 | 5-3 is 2 |
| ScriptParsing.UnclosedCallAccepted | haret-j820gnu/src/script.cpp:248-473 | a concrete unclosed call that is accepted with the value of another variable |
| PhysMem.PhysMap.MemPhysMap | haret-j820gnu/src/memory.cpp:72-141 | a non-null result points at the requested word with at least 32K of the same window ahead, whatever free address VirtualAlloc gives (that of the window just evicted, for one); while mappings succeed the cache is touched like a move-to-front list of 8 |
| PhysMem.PhysMap.MemPhysReset | haret-j820gnu/src/memory.cpp:143-153 | every window is given back and every slot is free |
| PhysMem.PhysMap.constructor | haret-j820gnu/src/memory.cpp:64-66 | at the start every slot is free |
| PhysMem.RemappedIsTouch | haret-j820gnu/src/memory.cpp:72-141 | finding, evicting and shifting the slots is exactly a move to the front |
| Recency.RecencyMembers | haret-j820gnu/src/memory.cpp:72-141 | what most recently requested means: the list holds the bases requested |
| Recency.RecencyOrder | haret-j820gnu/src/memory.cpp:72-141 | each requested after the last request of those behind it |
| Recency.TouchedIsRecent | haret-j820gnu/src/memory.cpp:72-141 | in every run such a list holds exactly the most recently requested different bases, in recency order |
| PhysMem.PhysMap.MemPhysFill | haret-j820gnu/src/memory.cpp:567-580 | exactly the requested words of physical memory take the value, whatever is cached and however chunks cross windows |
| PhysMem.PhysMap.MemFill | haret-j820gnu/src/memory.cpp:551-565 | exactly the words behind the window take the value |
| PhysMem.PhysMap.MemWrite | haret-j820gnu/src/memory.cpp:582-609 | the bytes behind the window are appended in order, or as many as the disk has room for |
| PhysMem.PhysMap.MemPhysWriteFile | haret-j820gnu/src/memory.cpp:627-649 | the file holds the bytes from the word of the address on, in order, across chunks and windows, also when the disk fills up |
| PhysMem.WordBytes | haret-j820gnu/src/memory.cpp:582-609 | the four bytes written for a word, the lowest first, make up the word |
| PhysMem.RequestedRange | haret-j820gnu/src/memory.cpp:627-649 | that is the requested range exactly if the address is word aligned or nothing is requested |
| PhysMem.WrongByte | haret-j820gnu/src/memory.cpp:627-649 | asked for the byte at address 1, it writes the one at address 0 |
| Pcmcia.FieldsIndependent | linux/kernel/drivers/pcmcia/sa1100.h:65-90 | a field set reads back exactly if the value fits five bits, and then every other field keeps its value |
| Pcmcia.MecrSetWrites | linux/kernel/drivers/pcmcia/sa1100.h:53-68 | by bit number, the binary digits of any value are written from the lowest bit of its field on, over the bits of the field but into those behind it |
| Pcmcia.MecrSetDigits | linux/kernel/drivers/pcmcia/sa1100.h:53-68 | a value of five bits is written to bits 0-4, 5-9 or 10-14, 16-20, 21-25 or 26-30, and no other bit changes |
| Pcmcia.LeastSafe | linux/kernel/drivers/pcmcia/sa1100.h:99-106 | within range the count is a safe one and the least |
| Pcmcia.SafeExactlyInRange | linux/kernel/drivers/pcmcia/sa1100.h:99-106 | the 32-bit count is safe and fits its field exactly within that range |
| Pcmcia.OutOfRangeCounts | linux/kernel/drivers/pcmcia/sa1100.h:99-106 | a cycle too short and one too long for the register |
| Pcmcia.Monotone | linux/kernel/drivers/pcmcia/sa1100.h:99-106 | a count safe at a clock is safe at every slower one |
| Pcmcia.CmdTimeNotAbove | linux/kernel/drivers/pcmcia/sa1100.h:108-114 | the reported command time is never more than the programmed one, and short of it by no more than the rounding of the two divisions |
| Pcmcia.Sockets.ChangeClock | linux/kernel/drivers/pcmcia/sa1100_generic.c:889-917 | through pre-notify, switch and post-notify every field is safe for the clock then running, and the register ends programmed for the new clock; a change to another clock ends with every field programmed and safe exactly if every speed is in range there |
| Pcmcia.Sockets.UpdateMecr | linux/kernel/drivers/pcmcia/sa1100_generic.c:856-876 | the register written for every speed; every field of both sockets is then programmed and safe for the clock exactly if every speed is in range, and then bits 0-4, 5-9, 10-14, 16-20, 21-25 and 26-30 are the binary digits of the six counts and bits 15 and 31 are kept |
| Pcmcia.Sockets.SetIoMap | linux/kernel/drivers/pcmcia/sa1100_generic.c:563-620 | the window test, the default speed, the one speed recorded, the register written for every speed, and if the speed is in range that it stays programmed and exactly bits 0-4 or 16-20 are written |
| Pcmcia.Sockets.SetMemMap | linux/kernel/drivers/pcmcia/sa1100_generic.c:659-732 | the same for attribute (bits 5-9 or 21-25) and common memory (bits 10-14 or 26-30), with the default by card voltage |
| Pcmcia.Sockets.SafeMeansInRange | linux/kernel/drivers/pcmcia/sa1100_generic.c:856-876 | a programmed register is safe exactly if every recorded speed is in range |
| Pcmcia.Sockets.constructor | linux/kernel/drivers/pcmcia/sa1100_generic.c:1082-1121 | the register starts programmed and safe exactly from 40 MHz to 1163.636 MHz |
| Pcmcia.DefaultClocks | linux/kernel/drivers/pcmcia/sa1100.h:99-106 | the exact range of clocks for each default speed |
| Terminal.Editor.Readline | haret-j820gnu/src/terminal.cpp:57-203 | the line, the echo and the unread bytes are those of the two-list editor on all bytes one after another, however they are buffered and chunked; bytes that are only typed come back in order |
| Terminal.Editor.EditBuffer | haret-j820gnu/src/terminal.cpp:82-201 | one buffer full is edited as the two-list editor does, up to its end or the CR |
| Terminal.Editor.InsertByte | haret-j820gnu/src/terminal.cpp:186-196 | the byte is stored at the cursor, what was behind it moves up and the array grows if needed, which is inserting at the cursor of the two lists |
| Terminal.Editor.DeleteByte | haret-j820gnu/src/terminal.cpp:171-179 | the byte before the cursor goes and what was behind it moves down, which is deleting before the cursor of the two lists |
| Terminal.ProcessConcat | haret-j820gnu/src/terminal.cpp:72-202 | processing depends only on the bytes in order, wherever they are cut |
| Terminal.KeysRead | haret-j820gnu/src/terminal.cpp:85-199 | the bytes of any sequence of keys, then CR, have the effect of those keys and return the text before the cursor |
| Terminal.TypedReturned | haret-j820gnu/src/terminal.cpp:186-196 | bytes typed and then CR return exactly those bytes, in order, behind what was before the cursor, and echo them |
| Terminal.TypingKeys | haret-j820gnu/src/terminal.cpp:171-196 | a byte goes in front of the cursor, and a backspace takes out the one in front of it |
| Terminal.BackspaceUndoes | haret-j820gnu/src/terminal.cpp:171-196 | a backspace after a byte restores both sides of the cursor |
| Terminal.OneByteMoves | haret-j820gnu/src/terminal.cpp:111-138 | right, left and erase-character move the cursor over exactly one byte and not past the ends |
| Terminal.EndMoves | haret-j820gnu/src/terminal.cpp:99-145 | up and erase-line go to the start, down to the end, with what is written back |
| Terminal.NothingDone | haret-j820gnu/src/terminal.cpp:142-161 | a telnet negotiation and the other control bytes do nothing |
| Terminal.MovesKeepLine | haret-j820gnu/src/terminal.cpp:97-151 | only typing and backspace change the line |
| Terminal.EraseOnlyMoves | haret-j820gnu/src/terminal.cpp:132-138 | the telnet erase-character command keeps the line, which is what backspace does to it exactly if there is nothing to erase |
| Terminal.ReturnedWhole | haret-j820gnu/src/terminal.cpp:163-170 | the line returned is the whole line exactly if the cursor is at its end |
| Terminal.Editor.constructor | haret-j820gnu/src/terminal.cpp:37-43 | a new terminal has an empty line and nothing read |

## Left out

* Pixel drawing, the cursor image and its timers, blanking, colour maps and the logo drawing of `fbcon.c`.
* Consoles that are not in the foreground, except in `ScreenPos`.
* Byte addresses of the scrollback: a unit of memory is a row (`SoftbackRing`) or a cell (`ScreenPos`), and every ring pointer is row aligned. Wrap-round of 32-bit addresses in the pointer arithmetic is not modelled.
* The console core that calls `fbcon_scroll` (console.c is not part of this model): its shift of the screen buffer is `Fbcon.Console.ShiftScreen`.
* A scroll of a whole region (`count` reaching its size, and the clamp of `count` to the screen height): `0 < count < b - t` is assumed of the caller. In move and pure redraw modes `yscroll` is 0.
- Fbcon.Console.ScrollDelta: does not model the hardware scrollback branch, nor what the call draws while the boot logo is up; the step that takes the logo down is `RetireLogo`, which says when the rest of the call finds a consistent ring.
* The early returns of `fbcon_scroll` and `fbcon_scrolldelta` on a console that is not in text mode (KD_TEXT), and of `fbcon_scroll` for a count of 0.
* `fbcon_init` and `set_con2fb_map`, which copy whole display structures; resizing and remapping after a font change; `fbcon_get_font`, glyph packing and the reordering of attribute bits for 512-character fonts.
- Fonts.FontTable.SetFont: starts at the block it stores, after the checks of width and height and the packing of the glyphs; the height of a font, which is not compared either, is not modelled.
* Failure of `kmalloc` in `pci_pool_create`; sleeping and retrying in `pci_pool_alloc`, the debugging and poison code, locks, and slot names.
- PciPool.Pool.Free: the write outside the bitmap is an outcome; what it changes is not modelled.
* The rest of the script interpreter; what reading a function or register does besides giving a value, and where the bits of a bit set are kept; a division by zero ends the evaluation in a fault. User variables are integers, the only kind the interpreter makes.
* `memVirtToPhys`, the dumps, the disabled second `memPhysMap`, and the word reads and writes of `memory.cpp`.
- PhysMem.PhysMap.MemPhysFill: no mapping fails, since the code dereferences the null pointer a failed mapping gives.
- PhysMem.PhysMap.MemPhysWriteFile: the same.
* PCMCIA windows' addresses, start and stop rewriting, the fast bit, the rest of driver start-up, and the interrupt and status code. The limits on window numbers are constants of the class, as their values are not in the repository.
* What `strtoul` reads once it has left the string. Failure of `realloc` in the line editor; a failing write to the client.
