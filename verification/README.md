# wLaunchELF: a verified model

A Dafny model of the parts of wLaunchELF, a PlayStation 2 file manager, that are algorithms and state
machines in their own right. Code that works by changing things step by step is modelled by classes, arrays and
loops and proved against specification functions; what the program promises is then proved about those functions,
for every input and every run. `dafny verify dfyconfig.toml` checks everything.

| files | what they model |
|---|---|
| `Calendar`, `FolderTimestamp`, `Sas`, `Names`, `StableOrder`, `Organizer`, `Arithmetic` | the organizer that forces the order of folders in the console's browser by writing dates: Gregorian stepping with a reserved "Tuna" date, the base-40 fraction of a name scaled to the seconds of a day, stable insertion sorts, and the theorem that date order is name order or category order |
| `HddHeader` | SYSTEM.CNF in a partition's attribute area, read and written through 512-byte sectors that may fail |
| `RowLayout`, `EditorRules`, `EditorInput` | the text editor: wrapping, scrolling, cursor moves, and edits coded as offsets on a NUL-terminated buffer |
| `DriverStacks`, `TransferGate` | the I/O processor's driver stacks, some of them mutually exclusive, and the readiness of both ends of a transfer |
| `MountTable` | the table of mounted partitions, its eviction policy, and the virtual memory cards that pin partitions |
| `TreeCopy` | recursive copy, delete, and cut and paste on a file tree whose every operation may fail |
| `CnfText`, `CnfParser`, `Configuration`, `ConfigurationKeys`, `Numerals` | the configuration file: the parser that cuts up its buffer in place, and saving and loading the settings |
| `FileSort` | the order of a file listing and the in-place quicksort |
| `LaunchArgs`, `Loader` | launch arguments, and the hand-over of argument vectors to the embedded loader |
| `Common`, `Options`, `Paths` | characters and sizes that many parts share, a value or none, and cutting a path at a slash |

Devices, drivers and the user are nondeterministic: a load, mount, read, write, listing or dialog may go either way
at every call. Each device class also has a constant for one that carries out whatever it can (for drivers: a set that
is certain to load, and whether what has loaded before loads again); with it the operations are proved to succeed, so
that failing is no way to meet a contract. Positions in text are those of C strings; a buffer is an `array<char>` that holds a terminated
string. C integers are written out where their width matters (sectors and sizes on the disk, colours, memory
addresses, the offset of a dated folder).

## Assumptions

- Driver stacks: a retail (non-PSX) console and a build with Ethernet, UDPFS, exFAT, MMCE and MX4SIO. The keyboard's
  driver and map files are on the card or a USB drive, not on a device whose stack is being switched. The host: device
  answers only if its driver is loaded.
- Mounts: the device refuses to mount on a unit that is in use; the FTP server may occupy any free unit at any time.
- Copy: the destination is neither inside a pasted item nor an item on the way to one; names survive the device's length
  limit, so that different names stay different; a listing names entries that exist, each once, in any order, but may
  break off; a memory card's listing counts "." and ".." among its entries.
- Configuration: `char` is signed; the tables of layout and language names are looked up exactly; a written path fits its
  buffer.

## Where the code does less than it seems to promise

- A character outside the SAS alphabet is given digit 40, which is the base: "A~~" gets a later slot than "B", although
  it precedes it. `Sas.OrderKeptExactlyBelowBase` says exactly when the order is kept.
- A paste with the cursor on an LF in CR/LF mode loses the clip's last character (`EditorInput.PasteIsExact`); with the
  cursor before the mark, Cut, Backspace and Delete erase as many characters before the cursor instead of the marked ones.
  `EditorInput.ErasedIsMarked` says exactly when that makes a difference.
- Overwriting one half of a CR/LF pair leaves the recorded text size wrong; `EditorInput.TextWindow.Type` and
  `EditorInput.TextWindow.Return` say exactly when it stays right. The return modes named UNIX and MAC write CR and LF,
  in that order; the model follows the code.
- A listing shows at most 2046 entries, on a memory card 2044, so a copy of a larger folder succeeds with entries left
  out, and a larger folder cannot be deleted. A listing that fails reads as an empty folder, so a folder can be copied
  empty and, after a cut, deleted: `TreeCopy.CutWithUnreadFolder`. `TreeCopy.LostExactly` says which entries are lost, and `TreeCopy.Storage.Paste`
  when none is.
- Copying an empty folder over an existing one fails, unless that one has a game title to show: the code then takes the
  failed look-up of the title for the result of the copy. `TreeCopy.FitsAt` is the condition for success.
- A comment line with a byte from 128 up, an accented letter or a byte-order mark, hangs the configuration parser, because
  such a `char` is negative: `CnfText.HangsExactly`.
- A launch path of an entry beyond the buttons up to SELECT is saved only with its flag set: `Configuration.LoadRestores`.
- A value in the configuration file survives if and only if it is on one line and has no leading blank: `CnfText.ValueSurvives`.
- Between two network stacks every readiness check resets the I/O processor twice and leaves one end down:
  `TransferGate.PrepareThenCheck`.

## Model

| member | source | states |
|---|---|---|
| Calendar.MonthStep | src/filer_actions.c:367-379 | the month lengths, leap rule included, add up to the ordinal days of the Gregorian year |
| Calendar.YearStep | src/filer_actions.c:367-379 | twelve months of the code's lengths are exactly one year of the closed Gregorian day count |
| Calendar.SecondsOrder | src/filer_actions.c:658-677 | comparing the six date fields in order is comparing seconds since year 1, and equal seconds are equal dates |
| Calendar.FirstSecond | src/filer_actions.c:381-389 | a valid date is at or after 1 January of year 1, 00:00:00, and only that date is second 0 |
| Calendar.TunaIsLast | src/filer_actions.c:477-487 | the reserved Tuna date is valid and is the one last second of the range |
| FolderTimestamps.NormalizedIsProjection | src/filer_actions.c:450-475 | normalizing always gives a valid date, never the reserved one, keeps dates that are fine already, and is idempotent |
| FolderTimestamps.FolderTimestamp.Normalize | src/filer_actions.c:450-475 | the in-place normalization is the projection onto valid dates, field by field nearest |
| FolderTimestamps.FolderTimestamp.Step | src/filer_actions.c:508-573 | one step is exactly plus or minus one second of calendar time after normalizing, saturating at both ends and never yielding the reserved date |
| FolderTimestamps.FolderTimestamp.Tick | src/filer_actions.c:512-538 | the carry through seconds, minutes, hours, days, months and years is plus one second |
| FolderTimestamps.FolderTimestamp.Tock | src/filer_actions.c:539-570 | the borrow the other way is minus one second |
| FolderTimestamps.StepIsDetermined | src/filer_actions.c:508-573 | the description of a step leaves no choice: two results that meet it are equal |
| FolderTimestamps.StepsUndoEachOther | src/filer_actions.c:508-573 | between the two ends a step forward and a step backward undo each other |
| FolderTimestamps.FolderTimestamp.SetSequential | src/filer_actions.c:1324-1337 | the stamp for position p is the top minus 60 p seconds of calendar time, or the first second if that is earlier |
| FolderTimestamps.FolderTimestamp.DecrementDate | src/filer_actions.c:1481-1494 | the date goes back exactly one day across months and years |
| FolderTimestamps.FolderTimestamp.SetSas | src/filer_actions.c:1496-1523 | a category stamp is 2099-01-01 07:59:59 minus category days and slot seconds of calendar time |
| Sas.NormalizeName | src/filer_actions.c:1346-1385 | the loops that trim and raise a name give the trimmed name in capitals |
| Sas.TrimLeftMeans | src/filer_actions.c:1361-1364 | blanks go from the front, and only blanks |
| Sas.TrimRightMeans | src/filer_actions.c:1365-1366 | and from the end |
| Sas.AliasesOfTools | src/filer_actions.c:1373-1382 | the known programs and tools are filed under their prefixes |
| Sas.AliasesOfSystem | src/filer_actions.c:1373-1382 | the same for the loaders, the boot folder and the exploits |
| Sas.AliasesOfFolders | src/filer_actions.c:1383-1384 | so is each of the known folders |
| Sas.NoOtherAlias | src/filer_actions.c:1373-1386 | every other name is filed under itself |
| Sas.CategoryMeans | src/filer_actions.c:1387-1414 | a name with a category's prefix is in that category |
| Sas.OwnPrefix | src/filer_actions.c:1387-1414 | a name without a prefix is in category 9, except APPS and SYS |
| Sas.BuildPayload | src/filer_actions.c:1416-1437 | the payload is what the name leaves behind its category prefix ("APPS", or a name without prefix, in full): it holds no dash, and every other character, each behind as many as are kept before it |
| Sas.SourceTellsNamesApart | src/filer_actions.c:1387-1428 | what a name is ranked by tells it apart from every other name of its category, except the folder SYS from a folder SYS_SYS |
| Sas.CarryStep | src/filer_actions.c:1470-1475 | one turn of the carry loop prepends one digit to the scaled fraction: nested floors collapse |
| Sas.FractionIsNumeral | src/filer_actions.c:1454-1479 | the digits' fraction, times 40 to their number, is their base-40 numeral |
| Sas.ScaledIsFloor | src/filer_actions.c:1454-1479 | what the carry loop computes is the floor of 86400 times the real number with the payload's base-40 digits |
| Sas.TimestampSlot | src/filer_actions.c:1454-1479 | the loop over 48 digits returns that floor, but at most the last second of the day, without leaving 32-bit arithmetic |
| Sas.NumeralFollowsOrder | src/filer_actions.c:1439-1479 | numerals whose digits stay below the base are ordered like their digits |
| Sas.SlotFollowsAlphabet | src/filer_actions.c:1439-1479 | a payload with no catch-all character never gets a later slot than one it precedes |
| Sas.CodesFollowLetters | src/filer_actions.c:1439-1452 | blank, digits, capitals and the underscore are coded in their own order, ahead of all other characters, which share the last code |
| Sas.SlotFollowsLetters | src/filer_actions.c:1439-1479 | a payload in that alphabet never gets a later slot than one it precedes character by character |
| Sas.FirstCharactersDecide | src/filer_actions.c:1462-1467 | the first 48 characters of a payload make its digits, and no others |
| Sas.CatchAllCounterexample | src/filer_actions.c:1439-1452 | "A~~" precedes "B" but is given the later slot |
| Sas.OrderKeptExactlyBelowBase | src/filer_actions.c:1439-1479 | dictionary order survives the scaling for all payloads if and only if every digit is below the base |
| Names.StrICmpAntisymmetric | src/filer_actions.c:1300-1303 | the case-insensitive comparison changes sign when its arguments change places |
| Names.StrICmpTransitive | src/filer_actions.c:1300-1303 | it is transitive, ties included |
| Names.StrICmpIsDictionary | src/filer_actions.c:1300-1303 | a name comes first if and only if, letters in their small form, the names agree up to a place where it ends or has the smaller letter; they tie if and only if they agree throughout |
| Names.CaseDoesNotMatter | src/filer_actions.c:1300-1303 | "alpha" and "ALPHA" tie, and both come ahead of "BETA" |
| Names.UpperIsCapital | src/filer_actions.c:1339-1344 | raising keeps the letter, leaves no small letter, and changes nothing else |
| Organizer.SortIndexes | src/filer_actions.c:1305-1322 | the insertion sort orders the positions by folder name without regard to case, alphabetically or in reverse, stably, and permutes them |
| Organizer.SortEditorFolders | src/filer_actions.c:685-703 | folders and their original dates are permuted alike, newest first and by name among equals |
| Organizer.Collect | src/filer_actions.c:1551-1557 | Tuna folders get the reserved date and exactly the eligible folders are listed, in order |
| Organizer.ContainsTunaMeans | src/filer_actions.c:97-112 | a Tuna folder is one whose name holds "tuna" anywhere, in any case |
| Organizer.ExcludedMeans | src/filer_actions.c:1275-1298 | excluded are the names that start with B, a region letter, four letters, a dash and five digits |
| Organizer.AssignDates | src/filer_actions.c:1559-1571 | each listed folder gets the date of its place or of its category and slot; no other folder changes |
| Organizer.Organize | src/filer_actions.c:1525-1571 | the whole pass: names stay, Tuna folders are reserved, excluded save folders keep their date, eligible ones are dated by the mode |
| Organizer.TunaFoldersAreNewest | src/filer_actions.c:1551-1571 | every Tuna folder is strictly newer than, and listed ahead of, every eligible folder |
| Organizer.DateOrderIsNameOrder | src/filer_actions.c:1559-1563 | after A to Z or Z to A, any newest-first listing shows exactly the eligible folders, each pair in dictionary order without regard to case, or in its reverse, folders of one name in their positions |
| Organizer.NameOrderIsUnique | src/filer_actions.c:1305-1322 | there is only one stable name order of the eligible folders |
| Organizer.DateOrderIsCategoryOrder | src/filer_actions.c:1564-1571 | after the category mode, newest first is category first, then slot, then name |
| Organizer.CategoryFirst | src/filer_actions.c:1496-1523 | the day windows of two categories never overlap |
| Organizer.CategoryListsAlphabetically | src/filer_actions.c:1564-1571 | within a category, a name whose payload is in the alphabet and comes first, character by character, is never given the older date |
| HddHeader.TableRoundTrip | src/hdd_header_injector.c:542-556 | decoding the stored attribute table gives the table back |
| HddHeader.DecodeRoundTrip | src/hdd_header_injector.c:542-556 | encoding a decoded table gives the stored bytes back |
| HddHeader.CnfCapacity | src/hdd_header_injector.c:498-520 | the capacity is the largest count there is room for, and is 0 when the file starts outside the area |
| HddHeader.CapacityUnique | src/hdd_header_injector.c:498-520 | that describes one number only |
| HddHeader.FitsMeans | src/hdd_header_injector.c:498-520 | there is room up to 512 bytes, up to the end of the area, and up to every later file that is not empty |
| HddHeader.ValidateSystemCnfEntry | src/hdd_header_injector.c:522-540 | success and each of the three refusals are characterized: no entry, a start outside the area, a size beyond the capacity |
| HddHeader.EditableMeans | src/hdd_header_injector.c:522-540 | accepted are the magic, a start behind the first 512 bytes and inside the area, and a size there is room for |
| HddHeader.Injector.ReadAttributeHeader | src/hdd_header_injector.c:542-556 | on success the table is the decoded header sector |
| HddHeader.RangeMeans | src/hdd_header_injector.c:558-600 | refused are the ranges that do not lie in the header's 2 MB |
| HddHeader.Injector.ReadRawRange | src/hdd_header_injector.c:558-586 | a byte range at any alignment is read through whole sectors exactly; out-of-range requests, and on a sound disk only those, are refused |
| HddHeader.Injector.WriteRawRange | src/hdd_header_injector.c:588-621 | success is exactly a byte splice on the disk, and on a sound disk every range inside the header succeeds; failure stays within the touched sectors; a refused range changes nothing |
| HddHeader.Injector.ReadSystemCnf | src/hdd_header_injector.c:623-647 | success returns the stored text; a refusal names what is wrong with the stored entry or that the buffer is too small; a sound disk gives no I/O error and succeeds if and only if the stored entry is editable and fits the buffer |
| HddHeader.Injector.WriteSystemCnf | src/hdd_header_injector.c:649-684 | a text that does not fit or an entry that is not editable changes nothing; success writes the padded text and the size field, and a sound disk gives success whenever the text fits; a failure midway stays within the sectors of SYSTEM.CNF's capacity and the table's sector |
| HddHeader.WriteThenRead | src/hdd_header_injector.c:623-684 | after a successful write the disk holds exactly the written text as SYSTEM.CNF |
| HddHeader.ZerosBehindText | src/hdd_header_injector.c:668-674 | behind the written text there are zeros as far as there is room |
| HddHeader.OnlySizeFieldChanges | src/hdd_header_injector.c:649-684 | of the header sector only the four bytes of the size field change |
| HddHeader.NeighboursKept | src/hdd_header_injector.c:498-520 | every non-empty attribute file that starts after SYSTEM.CNF, or ends at or before it, keeps its bytes, unless it lies on the four bytes of the size field themselves |
| HddHeader.RestOfDiskKept | src/hdd_header_injector.c:649-684 | nothing outside the table and SYSTEM.CNF's capacity changes anywhere on the disk |
| HddHeader.ResizedStaysEditable | src/hdd_header_injector.c:498-540 | after a write the entry can be edited again, with the same capacity |
| RowLayout.WrapIsCut | src/editor_rules.c:10-33 | rows are cut by the code's rule and together cover the text and its terminator exactly |
| RowLayout.CutSum | src/editor_rules.c:10-33 | every row has at least one and at most a row's width of characters |
| RowLayout.WrapIsRows | src/editor_rules.c:14-33 | no line ends inside a row, and a row stops at LF, in UNIX mode also at CR, at full width, or behind the terminator |
| RowLayout.CutIsWrap | src/editor_rules.c:10-33 | a text has one layout only: any rows cut by the rule that reach the terminator are the wrapping |
| EditorRules.Editor.LayOut | src/editor_rules.c:10-33 | the loop stores that wrapping, its top width is the sum of the rows above the window, and the cursor's row is inside the window |
| EditorRules.Editor.GoHome | src/editor_rules.c:35-45 | Home goes to the first character of the cursor's row: what is before it is in the row above |
| EditorRules.Editor.GoEnd | src/editor_rules.c:47-56 | End goes to the last character of the cursor's row: what is behind it is in the row below, or behind the terminator |
| EditorRules.Editor.GoDown | src/editor_rules.c:58-78 | one row down keeps the column or lands on that row's last character; from the last row the cursor leaves the text, to be clamped |
| EditorRules.Editor.GoUp | src/editor_rules.c:80-101 | one row up does the same upwards; from the first row it goes to the start whatever stale width is read |
| EditorRules.EdgesOfRow | src/editor_rules.c:35-56 | Home and End lead to the two ends of the row the cursor is in |
| EditorRules.RowsKeepColumn | src/editor_rules.c:58-101 | one row down or up is the same distance into the next row, or the end of a row that is shorter |
| EditorRules.MovesStayOnText | src/editor_rules.c:35-101 | every place the cursor can be sent is a place in the text |
| EditorRules.DownThenUp | src/editor_rules.c:58-101 | down and up again returns to the same character if and only if the row below was long enough |
| EditorRules.Editor.MeasureMark | src/editor_rules.c:109-119 | with the cursor behind the mark, the characters shown before the cursor are exactly the marked ones from the window's top on; the size is the signed distance from the mark |
| EditorRules.Editor.ApplyRules | src/editor_rules.c:6-121 | all rules at once, for any flags and pending rows: rows that stop at line ends or full width, window, the cursor's new place, the marked size, and the cursor always in the text |
| EditorRules.Editor.Settle | src/editor_rules.c:58-101 | repeating the frames until no rows are left to move brings the cursor, Home and End first, to where that many single-row moves lead |
| EditorRules.TravelRow | src/editor_rules.c:58-101 | which is exactly that many rows away, or on the first or last row |
| EditorInput.EraseInPlace | src/editor_input.c:380-393 | cutting the string and joining its tail from a copy removes exactly a range |
| EditorInput.TextWindow.Type | src/editor_input.c:405-424 | insert-mode typing is an exact one-character splice; the size stays the string's length unless a CR/LF pair is overwritten |
| EditorInput.TextWindow.Return | src/editor_input.c:331-352 | Return in its three modes splices in the line break; when the size stays right is said exactly |
| EditorInput.TypingReplaces | src/editor_input.c:153-168 | in overwrite mode an entry replaces one character or one CR/LF pair, otherwise none |
| EditorInput.LineEnds | src/editor_input.c:331-345 | the three line breaks, and the places next to the LF of a pair that entries and erasures move to |
| EditorInput.TextWindow.Backspace | src/editor_input.c:212-235 | one character or a whole CR/LF pair before the cursor is removed |
| EditorInput.BackspaceTakes | src/editor_input.c:212-235 | which characters Backspace takes, at, in and behind a CR/LF pair |
| EditorInput.TextWindow.Delete | src/editor_input.c:477-501 | the character or the CR/LF pair at the cursor is removed; a lone LF takes the character before it along |
| EditorInput.TextWindow.BackspaceMarked | src/editor_input.c:217-228 | as many characters as are marked go, those before the cursor; only an empty mark stays |
| EditorInput.TextWindow.DeleteMarked | src/editor_input.c:482-492 | so does Delete, from its own entry point |
| EditorInput.TextWindow.ToggleMark | src/editor_input.c:237-251 | starting a mark puts both ends at the cursor and forgets the clip |
| EditorInput.TextWindow.Copy | src/editor_input.c:252-272 | the marked stretch, in either direction, is the clip, marked as copied, and the text stays |
| EditorInput.TextWindow.Cut | src/editor_input.c:273-296 | the marked stretch, in either direction, is the clip, marked as cut, and as many characters before the cursor go |
| EditorInput.TextWindow.Paste | src/editor_input.c:298-307 | the clip is spliced in at the cursor, or one earlier and one shorter on an LF in CR/LF mode |
| EditorInput.PasteIsExact | src/editor_input.c:298-307 | a paste is an exact insertion if and only if the cursor is not on an LF in CR/LF mode |
| EditorInput.PasteOnLF | src/editor_input.c:298-307 | what a paste on an LF in CR/LF mode makes of the text |
| EditorInput.ErasedIsMarked | src/editor_input.c:212-296 | Cut, Backspace and Delete erase the marked stretch if and only if the cursor is not before the mark, or the characters taken in its stead are the same |
| EditorInput.CutThenPaste | src/editor_input.c:273-307 | cut and paste at the same spot restores the text if and only if the cursor was not on an LF in CR/LF mode |
| EditorInput.TypeThenBackspace | src/editor_input.c:153-238 | typing a character and erasing it restores the text if and only if it does not make a CR/LF pair with a neighbour |
| EditorInput.BackwardCutTakesOthers | src/editor_input.c:212-296 | a concrete text where cutting with the cursor before the mark erases other characters than the marked ones |
| EditorInput.TypeThenErase | src/editor_input.c:153-238 | in insert mode, typing a text without line ends and pressing Backspace as often restores the whole page: text, cursor, modes and clip |
| EditorInput.KeysApply | src/editor_input.c:153-307 | which keys apply wherever the cursor is: so a run is not cut short by plain typing, erasing, marking and pasting |
| EditorInput.TypedText | src/editor_input.c:153-168 | typing a text without CR puts exactly it in at the cursor |
| EditorInput.CutAndPaste | src/editor_input.c:237-307 | the four edits mark, move, cut and paste, in a row, restore the text if and only if the cut did not leave the cursor on an LF in CR/LF mode |
| EditorInput.CopyAndPaste | src/editor_input.c:237-307 | mark, move, copy and paste, in a row, double the stretch if and only if the cursor is then not on an LF in CR/LF mode |
| EditorInput.ModeKeys | src/editor_input.c:323-329 | the insert key changes to and fro, and the return-mode key goes round all four modes |
| EditorInput.TextWindow.Apply | src/editor_input.c:212-501 | each key does what its edit makes of text, cursor, modes, mark and clip, and nothing else |
| EditorInput.TextWindow.Run | src/editor_input.c:153-655 | in every run of edits, marks, cuts and pastes the recorded size stays the length of the string, and each edit makes of the page what it should, up to the first edit that would leave the buffer or overwrite half of a CR/LF pair |
| DriverStacks.Stacks.ExclusiveStacks | src/init.c:1566-1615 | in any valid state MMCE and MX4SIO are not both loaded, nor the Ethernet and UDPFS stacks |
| DriverStacks.Stacks.ResetRuntime | src/init.c:1439-1455 | a reset returns every mode to its default and drops every module; only the keyboard's modules, and those of the USB drive it may load from, come back |
| DriverStacks.Stacks.EnsureCardPort | src/init.c:1554-1564 | using slot 2 gets MX4SIO out of the way, by a reset exactly when it is active |
| DriverStacks.Stacks.SwitchStorage | src/init.c:1566-1579 | switching to an exclusive storage stack resets exactly when the other one is active |
| DriverStacks.Stacks.SwitchBlock | src/init.c:1581-1600 | the block-storage switch never resets and changes nothing that is loaded |
| DriverStacks.BlocksCoexist | src/init.c:1581-1600 | the branch that could reset is dead: hard disk and ATA share a session |
| DriverStacks.Stacks.SwitchNetwork | src/init.c:1603-1615 | switching networks resets exactly when the other network is active, and the mode is then the target |
| DriverStacks.Stacks.LoadUsb | src/init.c:1317-1382 | when the USB driver is loaded its whole chain is |
| DriverStacks.Stacks.LoadHddStack | src/init.c:469-530 | success means every driver below PS2HDD and PS2FS is loaded |
| DriverStacks.Stacks.LoadBdmCore | src/init.c:1691-1713 | success is exactly that the whole block-device core is loaded |
| DriverStacks.Stacks.LoadAtaBlockDriver | src/init.c:1715-1737 | success means the whole ATA chain is loaded |
| DriverStacks.Stacks.LoadMmce | src/init.c:1637-1656 | resets exactly on a conflict, and success is exactly that MMCE is loaded with its chain |
| DriverStacks.Stacks.LoadMx4sio | src/init.c:1658-1689 | resets exactly on a conflict, and success is exactly that MX4SIO is loaded, with its chain |
| DriverStacks.Stacks.LoadAta | src/init.c:1739-1765 | never resets, and success is exactly that the ATA block driver is loaded, with its chain |
| DriverStacks.Stacks.LoadHdd | src/init.c:1844-1867 | never resets, and success is exactly that PS2HDD and PS2FS are loaded, with their chain |
| DriverStacks.Stacks.LoadHost | src/init.c:693-718 | resets exactly on a conflict; success means the host driver and its chain are loaded and the remote end has answered |
| DriverStacks.Stacks.LoadUdpfs | src/init.c:720-775 | resets exactly on a conflict, and success is exactly that the UDPFS driver is loaded, with its chain |
| TransferGate.GateMatchesDevice | src/filer_device.c:16-103 | the gate and the readiness check agree on which paths need an exclusive storage stack |
| TransferGate.RefusedPairs | src/filer_device.c:46-50 | refused are exactly MX4SIO with card slot 2 or with MMCE, either way round |
| TransferGate.DeviceByPrefix | src/filer_device.c:52-103 | a path's prefix alone decides which drivers it needs |
| TransferGate.EnsurePathReady | src/filer_device.c:52-103 | ready means that the driver the path's prefix calls for is loaded, with its chain, and a reset exactly on a conflict; a card, a disc or an unknown path is ready as it is |
| TransferGate.SecondConflicts | src/init.c:1566-1615 | after two devices have been made ready in turn, the first conflicts with what is active if and only if they are on different networks |
| TransferGate.PrepareTransfer | src/filer_device.c:105-123 | incompatible pairs are refused before anything is loaded; READY leaves the driver of the destination's prefix loaded, and asking for the source again would reset exactly between two networks; with drivers that are certain to load, it is READY |
| TransferGate.PrepareThenCheck | src/filer_copy.c:403-411 | the copy checks both ends again for every entry: between host: and udpfs: each check resets twice and leaves an end down, for ever; between any other ends no check resets and both ends' drivers are loaded, even if preparing the destination reset the source's away |
| TransferGate.CopyAcrossNetworks | src/filer_copy.c:403-411 | three entries from host: to udpfs:, with drivers that are certain to load: READY, six resets, and one stack is down at the end |
| TransferGate.Run | src/init.c:1566-1765 | in every run of visits, card accesses, transfers, services and resets, whichever loads fail, no two exclusive stacks are in memory together |
| MountTable.SomeEvictable | src/filer_mount.c:32-46 | with pins exactly the cards' partitions, one of the four units is neither the latest nor pinned |
| MountTable.CardStaysBacked | src/filer_mount.c:32-88 | whatever keeps the needed units keeps the partition behind every mounted card, on the device too |
| MountTable.PartyRoundTrip | src/filer_mount.c:190-207 | the partition of a clipboard path is its unit and the name up to the next slash |
| MountTable.ClipboardUsesOwnParty | src/filer_mount.c:190-216 | a clipboard that holds something needs the partition of its path and no other; a path elsewhere needs none |
| MountTable.Mounts.Unmount | src/filer_mount.c:90-114 | table and device give a unit up together, or neither, and only when the device refuses |
| MountTable.Mounts.ChooseUnit | src/filer_mount.c:25-46 | a free unit is chosen before any is given up, and one of the two is always found, so the exit for no usable mount point is never taken |
| MountTable.Mounts.Reclaim | src/filer_mount.c:63-82 | the retry loop takes units only from those nobody needs, and fails only on a device that refuses |
| MountTable.Mounts.MountParty | src/filer_mount.c:15-89 | success means table and device both hold the partition, once, and a willing device always gives success; the latest mount and pinned partitions are never disturbed; a mounted partition is found without any change; with a free unit that is really free, a willing device keeps every mounted partition |
| MountTable.Mounts.MountBoth | src/filer_copy.c:426-457 | a copy's source is still mounted when its destination is, on a different unit unless they are the same partition |
| MountTable.Mounts.UnmountAll | src/filer_mount.c:155-189 | cards, partitions and pins are all forgotten, even those the device refuses to give up |
| MountTable.Mounts.ReleaseForClipboard | src/filer_mount.c:218-235 | partitions that the clipboard or a card needs stay; a willing device gives up all others |
| MountTable.Mounts.EjectCard | src/filer_browser.c:1497-1508 | taking a card out unpins its partition unless the other card shares it |
| MountTable.Mounts.MountCard | src/filer_browser.c:1497-1546 | a card is mounted or not as reported, on a partition that is then mounted and pinned, even if resolving its path reset everything |
| MountTable.Run | src/filer_mount.c:15-235 | in every run of mounts, copies, card mounts, releases, FTP intrusions and resets the table agrees with the device and the pins are exactly the cards' partitions |
| TreeCopy.Storage.CopyChunks | src/filer_copy.c:902-1041 | the loop copies all bytes, and fails only if a chunk is not read or written whole or the user stops it; then only the target is touched |
| TreeCopy.Storage.CopyFile | src/filer_copy.c:763-1146 | success is that the target is a copy of the source and nothing else has changed; working devices succeed if and only if the source is a file, the target's folder is there, and the target is no folder, whether or not a file is there |
| TreeCopy.Storage.CopyContents | src/filer_copy.c:659-673 | the loop over a listing copies every listed entry, recursively, and knows what listings left out |
| TreeCopy.Storage.List | src/filer.c:1460-1466 | a listing names entries of the folder, each once: all of them, or as many as it can show |
| TreeCopy.ListLimits | src/filer.c:1197-1212 | a memory card's folder shows at most 2044 entries, any other 2046 |
| TreeCopy.LongListing | src/filer.c:1197-1212 | a listing as long as the folder is complete |
| TreeCopy.Storage.Copy | src/filer_copy.c:366-1146 | success determines the whole new state: entries under the target are the listed source entries, all else is as before, and nothing lies deeper than the recursion limit; with complete listings something is left out if and only if a folder has more entries than a listing shows; failure touches only the target; working devices copy every tree within the depth limit to a new name, over files, and with complete listings into folders that are there already, save an empty folder |
| TreeCopy.PasteChild | src/filer_copy.c:659-673 | copying one more child of a folder extends the copy by exactly that child |
| TreeCopy.ShallowChild | src/filer_copy.c:396-397 | the recursion limit carries from a child to its folder |
| TreeCopy.FileTransferable | src/filer_copy.c:811-820 | a file can go over any file and to any new name |
| TreeCopy.NewNameTransferable | src/filer_copy.c:366-397 | anything within the depth limit can go to a new name |
| TreeCopy.Storage.Delete | src/filer_actions.c:1652-1730 | deleting adds and changes nothing, stays within the item, and success means all of it is gone and no folder in it exceeded a listing; working devices with complete listings succeed if and only if the item is what the caller takes it for and no folder exceeds a listing |
| TreeCopy.NothingUnlisted | src/filer_actions.c:1685-1706 | a folder can be removed after its listed entries only if all of its entries were listed |
| TreeCopy.Storage.Paste | src/filer_browser.c:2110-2181 | if copying fails, or there was no cut, the originals are all intact; after copying the whole state outside the originals is determined by what listings left out; with complete listings nothing is left out if and only if no folder exceeds a listing, and then every entry is where it was or where it went, whatever else fails; success after a cut means the originals are gone; with working devices and targets that fit it succeeds |
| TreeCopy.NothingLost | src/filer_browser.c:2151-2181 | with complete listings and no folder too large for them, every entry under a pasted item is, unchanged, where it was or where it went, wherever the paste stops |
| TreeCopy.LostExactly | src/filer_browser.c:2151-2181 | after a cut has deleted the originals an entry has survived if and only if no listing left it out, or its like stood at the destination before |
| TreeCopy.CutWithUnreadFolder | src/filer_browser.c:2110-2181 | one failed listing on otherwise perfect devices: the cut reports success, the folder arrives empty, and all it held is gone |
| CnfText.ValueSurvives | src/config.c:108-156 | a written "name = value" line gives the value back, and the parser stands before the next line, if and only if the value is on one line with no leading blank |
| CnfText.LinesRoundTrip | src/config.c:108-156 | exactly the written pairs come back, in order, and then the parser stops, without hanging |
| CnfText.ReturnsIfLoopEnds | src/config.c:114-126 | a call returns if and only if some number of turns ends the loop over comment lines |
| CnfText.HangsExactly | src/config.c:114-126 | a call never returns if and only if the text starts with comment lines and one of them holds a byte from 128 up |
| CnfText.HungExactly | src/config.c:829-831 | a whole file is read if and only if no comment line that the parser reaches holds such a byte |
| CnfText.AccentHangs | src/config.c:121-126 | two concrete files with an accented comment that hang it |
| CnfText.FirstHighByte | src/config.c:121-126 | the first byte that hangs a comment is 128 |
| CnfText.AsciiReturns | src/config.c:108-156 | a file in ASCII never does |
| CnfParser.SkipWhile | src/config.c:115-128 | the pointer passes exactly the letters of a class; comment letters end at a negative char |
| CnfParser.ZeroWhite | src/config.c:133-134 | white space is overwritten by terminators and what follows stays a string |
| CnfParser.TakeName | src/config.c:128-146 | the name is cut off as a string of its own, or the line is refused |
| CnfParser.TakeValue | src/config.c:146-151 | the value is cut off at its line end as a string of its own |
| CnfParser.GetString | src/config.c:108-156 | one call in place does one step of the parser: success, name, value and rest, or a loop that never ends |
| CnfParser.ReadAll | src/config.c:829-831 | repeated calls deliver all pairs of the text, strictly advancing; they come to an end if and only if the text does not hang the parser |
| Configuration.HexToU32 | src/gui_colors.c:4-14 | the loop reads leading capital hexadecimal digits in 32-bit arithmetic |
| Configuration.ColorRoundTrip | src/gui_colors.c:4-53 | a printed colour is read back in its low 32 bits |
| Numerals.DecimalRoundTrip | src/config.c:525-585 | what "%d" prints atoi reads back, negative numbers included |
| Configuration.ValueRoundTrip | src/config.c:829-973 | every legal value of each kind of setting survives printing and reading |
| Configuration.ButtonKeyPrefix | src/config.c:839-848 | a launch key starts another only if they are for the same button |
| Configuration.DispatchScalar | src/config.c:836-952 | each scalar's key reaches its own setting and no other |
| Configuration.DispatchLaunch | src/config.c:839-848 | each launch-path key reaches its own path |
| Configuration.DispatchTitle | src/config.c:954-964 | each title key reaches its own title |
| Configuration.DispatchPad | src/config.c:965-971 | each path-pad key reaches its own entry |
| Configuration.AssignSaved | src/config.c:829-973 | loading saved lines restores what they are about and changes nothing else |
| Configuration.LoadRestores | src/config.c:467-619 | loading what was saved comes to its end and restores every number, colour, path, title and path-pad entry, and a launch path if and only if it was written or is the default |
| Configuration.Configuration.SaveText | src/config.c:467-619 | the text is built line by line from the settings |
| Configuration.ScriptInOrder | src/config.c:467-619 | the lines of the file, in order |
| Configuration.VersionFirst | src/config.c:467 | a saved file starts with its version |
| Configuration.Configuration.Load | src/config.c:829-973 | loading returns if and only if the file does not hang the parser; every variable of the file up to there is applied to the defaults, in order |
| Configuration.Dispatch | src/config.c:832-973 | the chain of comparisons is the assignment the lemmas are about |
| ConfigurationKeys.SourceKeysWellNamed | src/config.c:12-29 | the names the file really uses can be told apart as loading needs |
| ConfigurationKeys.ChoicesByName | src/config.c:911-941 | language and keyboard layout are written and read by name |
| ConfigurationKeys.LanguageOrder | src/lang.c:65-75 | English is language 0 and French language 2 |
| ConfigurationKeys.PathsAsTheyAre | src/config.c:923-945 | files are written and read as they are, each under its own name |
| ConfigurationKeys.ColorsInHex | src/gui_colors.c:16-53 | colours are written and read as eight hexadecimal digits, under names numbered from 1 |
| ConfigurationKeys.ColorDigits | src/gui_colors.c:4-14 | the digits read are 0 to 9 and the capitals A to F, for 0 to 15 |
| ConfigurationKeys.NumbersInDecimal | src/config.c:886-952 | every other setting is a decimal number; switches take any but 0 for on, and a mode out of range becomes the default |
| ConfigurationKeys.LaunchLines | src/config.c:839-848 | which launch paths are always written, and what a launch path or a title in the file sets |
| ConfigurationKeys.PadLines | src/config.c:965-971 | what a path-pad line sets, and that the lock is written |
| FileSort.CompareText | src/gui_sort.c:45-65 | the byte loop gives the difference at the first byte that differs |
| FileSort.CompareFiles | src/gui_sort.c:5-72 | the branches decide which entry is ahead: folders, then ELF files, then the older or, descending, the newer, then titled entries, then the smaller or, descending, the larger text byte by byte |
| FileSort.OrderIsAhead | src/gui_sort.c:5-72 | the reference order says just that, in terms of names, titles, times and bytes |
| FileSort.ElfIsNamed | src/gui_sort.c:17-24 | an ELF file is one whose name ends in ".elf", in either case |
| FileSort.OrderAntisymmetric | src/gui_sort.c:5-72 | in every mode the order changes sign when its arguments change places |
| FileSort.OrderTransitive | src/gui_sort.c:5-72 | in every mode it is transitive, ties included: a total preorder |
| FileSort.OrderTies | src/gui_sort.c:5-72 | entries tie if and only if nothing the mode looks at tells them apart |
| FileSort.Partition | src/gui_sort.c:79-91 | entries before the pivot are moved in front of it, and the range is permuted |
| FileSort.Sort | src/gui_sort.c:74-95 | the quicksort permutes the range so that no entry is ahead of an earlier one, leaves the rest, and changes nothing with sorting off |
| FileSort.SortListing | src/filer.c:1888-1891 | a listing is sorted behind its first entry |
| FileSort.GroupsInOrder | src/gui_sort.c:15-24 | in a sorted listing folders come before ELF files and those before the rest, in both directions |
| FileSort.SortedUpToTies | src/gui_sort.c:74-95 | two sorted arrangements of the same entries agree at every place up to ties |
| LaunchArguments.LinesHoldTheText | src/elf.c:105-133 | the lines are non-empty, hold no line end, and together are the text without its line ends |
| LaunchArguments.LinesRoundTrip | src/elf.c:105-133 | lines separated by any runs of CR and LF come back as they are |
| LaunchArguments.NeverFits | src/elf.c:87-133 | a limit exceeded at some point is exceeded by the whole text, so stopping early is right |
| LaunchArguments.FitMeans | src/elf.c:87-103 | the limits: twelve arguments, 255 characters each, and 2048 bytes with their terminators |
| LaunchArguments.AcceptedMeans | src/elf.c:105-149 | accepted are texts without NUL, with some character that ends no line, and with lines within the limits |
| LaunchArguments.LaunchArgs.CommitLine | src/elf.c:87-103 | a line is stored if and only if all three limits allow it; otherwise the cache is emptied |
| LaunchArguments.LaunchArgs.ParseChar | src/elf.c:105-133 | one character advances the lines as the text does, or stops on what cannot be accepted |
| LaunchArguments.LaunchArgs.LoadFromBuffer | src/elf.c:174-191 | accepted if and only if the non-empty lines meet the limits and there is no NUL; then exactly those lines are stored, else none |
| LaunchArguments.LaunchArgs.ReadFromFd | src/elf.c:151-172 | the same from a file, however its bytes are cut into chunks; a read error leaves the cache empty |
| Numerals.SignedPlain | src/config.c:525-585 | "%d" writes a sign for negative numbers only, and no leading zeros |
| Numerals.AtoiSkips | src/config.c:886-952 | white space in front of a number is passed over |
| Numerals.HexRoundTrip | loader/loader.c:57-84 | a number that fits the digits is read back from its hexadecimal print |
| Numerals.ValueRoundTrip | loader/loader.c:57-84 | digits in capitals are what is printed for their value |
| LoaderHandoff.ParseHex8 | loader/loader.c:57-84 | eight hexadecimal digits and nothing else are accepted, and their value is exact in 32 bits |
| LoaderHandoff.ParseMemPath | loader/loader.c:86-97 | accepted if and only if the text is "mem:" with two eight-digit words, which are returned |
| LoaderHandoff.MemPathRoundTrip | src/elf.c:754 | the loader reads back every pair of words the launcher prints |
| LoaderHandoff.MemPathInjective | src/elf.c:754 | no two pairs share a text |
| LoaderHandoff.LoaderMain | loader/loader.c:263-329 | the loader's scan of flags and arguments is the decoding the theorems are about |
| LoaderHandoff.SwitchesMean | loader/loader.c:281-312 | the reset and skip switches mean the same wherever they stand among the flags |
| LoaderHandoff.CleanupMeans | loader/loader.c:281-312 | the last of the flags H, N and D decides the clean-up |
| LoaderHandoff.EachETakesOne | loader/loader.c:285-312 | each E takes one argument from the end, the last taken being the target; the flags are bad if and only if none would be left |
| LoaderHandoff.FlagsMean | loader/loader.c:278-281 | the flags are a last argument that starts with "-la=" |
| LoaderHandoff.DecodeAppended | loader/loader.c:281-329 | a target behind the program's arguments is decoded apart from them |
| LoaderHandoff.DecodeFronted | loader/loader.c:281-329 | a target in front of them is, with both switches |
| LoaderHandoff.NormalizedBrowserPath | src/elf.c:363-404 | a browser path to the hard disk is normalized to the standard form of its partition and path |
| LoaderHandoff.NormalizedUsbPath | src/elf.c:389-406 | a path on usb: or mass:, with or without a unit, becomes a path from the root of that unit of mass, unit 0 if there is none |
| LoaderHandoff.HddPaths | src/elf.c:348-361 | which paths are on the hard disk, for browsing, and for an explicit hand-over |
| LoaderHandoff.Arg0Means | src/elf.c:795-850 | which name the program is handed: the hand-over path, partition and file, or the file name |
| LoaderHandoff.StandardFormAgrees | src/elf.c:363-404 | the program's name is the same whether it is normalized from the browser path or built from the mounted partition |
| LoaderHandoff.RunLoaderMemory | src/elf.c:558-571 | the loader gets back the payload's place, the program's name and the reset switch |
| LoaderHandoff.RunLoaderElfWithArgs | src/elf.c:574-622 | it gets back the file and every argument, and it is started if and only if the input is good and the partition, where one is needed, can be mounted; the vector stays within its ten entries |
| LoaderHandoff.RunLoaderElfWithArg0 | src/elf.c:770-865 | it gets back the target, the program's name, all cached launch arguments and both switches, and the cache is used up; it is started unless its partition cannot be mounted; the vector stays within its fifteen entries |

## Left out

- EditorInput.TextWindow.Return: the fourth return mode, which writes no line break but moves the text, because its offsets are not consistent.
- EditorInput.TextWindow.Delete: Delete at the end of the text, which would read behind the terminator, and on a lone LF at the very start in CR/LF mode, which would write before the buffer.
- EditorInput.TextWindow.Paste: a paste on an LF at the very start in CR/LF mode, which would write before the buffer, and of a clip that earlier pastes on an LF have shrunk to nothing, on an LF again.
- EditorInput.TextWindow.Cut: a mark farther behind the cursor than the cursor is from the start, which would write before the buffer; likewise for EditorInput.TextWindow.BackspaceMarked and EditorInput.TextWindow.DeleteMarked.
- FolderTimestamps.FolderTimestamp.SetSas: an offset that does not fit a C int.
- LoaderHandoff.RunLoaderElfWithArg0: the path built from partition and file must fit its 256 bytes, as the unchecked print demands.
- LaunchArguments.LaunchArgs.LoadFromBuffer: a null buffer or negative size, which is refused at once.
- Configuration.LoadRestores: the flags of launch entries and the labels of built-in programs, which are not restored as they were; other spellings of keys, layouts and languages that loading accepts.
- Configuration.Configuration.Load: values longer than the fixed buffers they are copied into.
- TreeCopy.Storage.Paste: a destination that lies inside a pasted item, or a pasted item named like a folder on the way to it; PSU images, renaming, attributes and dates, and progress and speed.
- TreeCopy.Storage.MakeFolder: a memory card reports an existing file like an existing folder; here it is an error.
- MountTable.Run: partitions unmounted directly by the disk manager, the editor or a launch, which bypass the pins; the PSX recorder's own table.
- DriverStacks.Stacks.LoadHdd: the PSX recorder's drivers, the waiting and retrying of probes, and builds without some of the drivers.
- HddHeader.Injector.WriteRawRange: sector numbers are unbounded, where the code's are 32 bits wide.
- Injecting a whole header from files, and the temporary file on which SYSTEM.CNF is edited.
- Drawing, dialogs, menus, controllers, fonts, icons and keyboard layouts: user interface.
- Remote procedure calls, module images and the boot of the I/O processor: foreign code, modelled as success or failure.
- PSU image format, local-time conversion and the manual date field editor.
- Loading an ELF image into memory and clearing memory around it.
