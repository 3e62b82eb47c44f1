# linenoise.py in Dafny

A model of the core of `linenoise.py`, a Python 2 port of the linenoise line editor. It reads a line from
a terminal in raw mode, byte by byte, echoing what is typed, and keeps a bounded history of lines. The
model covers:

- the history list: `history_add`, `history_set_maxlen`, and the text that `history_save` writes and
  `history_load` reads back;
- the terminal probes `get_cursor_position` and `get_columns`;
- the line-edit loop: `line_state`, `edit_insert` and `edit`;
- the raw-mode switch and the read dispatch: `enable_rawmode`, `disable_rawmode`, `read_raw`,
  `read_no_tty`, `read` and `unsupported_term`.

The operating system is a value, `Os.Device`. It holds:

- whether standard input is a terminal;
- the termios attributes;
- the column count the `TIOCGWINSZ` ioctl reports (0 when it fails);
- the bytes `os.read` will still deliver;
- the bytes `os.write` has accepted so far;
- how many more bytes `os.write` accepts.

A write beyond that room is short, which is how the model reaches the source's "short write" branches.
`os.read` at the end of input gives `None`, standing for Python's `''`. A Python exception is
`Outcome.Raised(...)`. This covers the `ValueError` from unpacking `split(';')` or from `int()` on a
malformed reply, and the `TypeError` from `ord('')` when `edit` reads past the end of input.

Modules follow the source's layers:

- `Text`: the Python string operations used (`strip`, `split`, `join`, `int`, `'%d'`).
- `Termios`: the attribute flags, with their Linux values.
- `Os`: the device.
- `Probe`: the two probes.
- `History`: the history list as values.
- `Linenoise`: the `line_state` and `linenoise` classes. Their methods update fields, as the Python
  methods do, and are proved against the value-level functions of the other modules.

Some behaviour of the code that the model keeps as written:

- A second `enable_rawmode` takes a new snapshot of whatever attributes are current
  (linenoise.py:144). `Termios.RawAttrsIdempotent` shows that enabling again on raw attributes gives the
  same raw attributes.
- `edit` adds an empty placeholder entry to the history (linenoise.py:201). The comment at
  linenoise.py:200 calls it the current buffer, but nothing in the file updates, removes or replaces it.
  `Linenoise.Linenoise.Edit` leaves it there.
- `history_load` applies no bound and no de-duplication (linenoise.py:319). So the distinct-and-bounded
  invariant holds only where it held before. `History.OverfullHistoryGrows` shows that `history_add`
  evicts only at exactly the bound.
- `edit` has no backspace, no history navigation, no mid-buffer insert, and no ignoring of control
  bytes. Every byte other than ENTER (13) and CTRL_C (3) is appended and echoed.
- `read_no_tty` treats an empty line (`"\n"`) like the end of input (linenoise.py:226-228).
- If `edit` raises, `read_raw` does not reach `disable_rawmode` (linenoise.py:219-220), so raw mode
  stays on. `Linenoise.Linenoise.ReadRaw` states this case separately.

## Model

| member | source | states |
|---|---|---|
| `Text.Strip` | linenoise.py:319 | `str.strip()`: the result has no leading or trailing whitespace and is no longer than its input |
| `Text.StripSlice` | linenoise.py:319 | `str.strip()` is a contiguous slice of its input, and every character outside that slice is whitespace |
| `Text.StripKeepsOut` | linenoise.py:319 | a character missing from a string is missing from its strip |
| `Text.StripTrimmed` | linenoise.py:319 | stripping a string without surrounding whitespace changes nothing |
| `Text.StripNewlineEnd` | linenoise.py:317-319 | a line's trailing newline makes no difference to its strip |
| `Text.StripChar` | linenoise.py:226 | `strip('\n')` is empty exactly when the input is all newlines, and otherwise neither starts nor ends with one |
| `Text.StripCharSlice` | linenoise.py:226 | `strip('\n')` is a contiguous slice of its input, and every character outside that slice is a newline |
| `Text.Decimal` | linenoise.py:100 | `'%d'` of a natural: nonempty decimal digits with no leading zero, whose value is the number |
| `Text.ParseInt` | linenoise.py:75 | `int(s, 10)` fails on any text that, once stripped, is neither digits nor a sign, blanks and digits; a stripped run of digits reads as its decimal value; a negative answer needs a leading `-` |
| `Text.SignedInt` | linenoise.py:75 | after a sign, the text is accepted only when blanks and then digits follow; a negative answer needs `-` |
| `Text.ParseIntSigned` | linenoise.py:75 | a stripped text made of a sign, blanks and digits reads as the digits' value with that sign |
| `Text.SignedIntGap` | linenoise.py:75 | the blanks after a sign are skipped before the digits are read |
| `Text.ParseIntDigits` | linenoise.py:75 | a nonempty string of digits parses to its decimal value |
| `Text.IndexOf` | linenoise.py:73 | the first position of a character, or the length when it is absent |
| `Text.Split` | linenoise.py:73 | `split(';')` gives at least one field, and no field holds the separator |
| `Text.IndexOfAfter` | linenoise.py:73 | in `a + sep + b` with no `sep` in `a`, the first separator is right after `a` |
| `Text.SplitAt` | linenoise.py:73 | split takes the text before the first separator, then splits the rest |
| `Text.SplitJoin` | linenoise.py:73 | splitting the join of separator-free fields gives back the fields |
| `Text.SplitTwo` | linenoise.py:73 | two fields are the text before the only separator and the text after it |
| `Text.Join` | linenoise.py:73 | `sep.join(parts)` (also at linenoise.py:309) starts with the first part, puts the separator right after it, and is one character per gap longer than its parts together; `SplitJoin` fixes the content |
| `Os.ReadByte` | linenoise.py:66 | `os.read(fd, 1)` (also at linenoise.py:206): `''` exactly at the end of input, otherwise the front byte, taken off the input; nothing else changes |
| `Os.WriteBytes` | linenoise.py:60 | `os.write` (also at linenoise.py:93, 100, 195, 203): whole exactly when there is room, a short write fills the room, the accepted prefix is appended to the output, and the input and the terminal are untouched |
| `Termios.ClearBits` | linenoise.py:147-153 | `x &= ~mask`: the mask bits are clear and all other bits are kept |
| `Termios.SetBits` | linenoise.py:151 | the bitwise or-assignment of a mask: the mask bits are set and all other bits are kept |
| `Termios.RawAttrs` | linenoise.py:144-157 | the raw attributes: the listed input, output and local flags off, CS8 on, every other bit and both speeds kept, VMIN 1, VTIME 0, every other control character kept |
| `Termios.RawModeFlags` | linenoise.py:146-157 | in raw attributes, echo, canonical mode, signals, extended input, CR-to-NL, flow control and output post-processing are off, and frames are 8-bit |
| `Termios.RawAttrsIdempotent` | linenoise.py:144-159 | making raw attributes raw again changes nothing |
| `Termios.ClearTwice` | linenoise.py:147-153 | clearing the same bits twice is clearing them once |
| `Termios.SetTwice` | linenoise.py:151 | setting the same bits twice is setting them once |
| `Probe.ReplyReads` | linenoise.py:64-68 | the reply loop reads from 1 to 32 bytes, stops at the first `'R'`, and reads fewer than 32 only when it met an `'R'` |
| `Probe.CursorLeft` | linenoise.py:100 | the cursor-left sequence is `ESC [`, then `n` in decimal, then `D` |
| `Probe.Collect` | linenoise.py:64-68 | the reply loop's list holds the reads in order; it has 1 to 32 entries, no `'R'` before the last, and ends with `'R'` unless all 32 reads were made |
| `Probe.CollectDetermined` | linenoise.py:64-68 | any buffer that meets the loop's exit conditions is the one `Collect` describes |
| `Probe.CursorPosition` | linenoise.py:57-75 | `get_cursor_position`: it writes only the query and consumes at most 32 bytes, none of them an `'R'` before the last. A short write gives -1 with nothing read. It never raises `IndexError`. It answers anything but -1 only on a reply framed as ESC `[` ... `R` |
| `Probe.GetCursorPosition` | linenoise.py:57-75 | the byte-reading loop computes what `CursorPosition` describes |
| `Probe.ReadNext` | linenoise.py:66 | after `n` reads, the next read yields the `n`-th byte, or `''` past the end, and leaves the input after it |
| `Probe.CursorPositionRead` | linenoise.py:60-75 | once the query is written whole, the answer is the parse of what the reply loop collects |
| `Probe.ConcatSomes` | linenoise.py:73 | `''.join` of the bytes read from a string is that string |
| `Probe.CollectReport` | linenoise.py:64-68 | for a well-formed `ESC [ rows ; cols R` report, the loop reads exactly the report |
| `Probe.ParseReport` | linenoise.py:70-75 | a well-formed report parses to the decimal value of its column field |
| `Probe.Concat` | linenoise.py:73 | `''.join(buf)` is no longer than `buf`, every byte of it was read, and nothing is lost when no read hit the end of input |
| `Probe.ParseReply` | linenoise.py:70-75 | `IndexError` exactly when the list is empty or a lone ESC; -1 for any other reply not framed as ESC `[` ... `R`; a framed reply is parsed from the bytes between the frame |
| `Probe.ParseBody` | linenoise.py:73-75 | only `ValueError` is raised, and always when the body has no `;` |
| `Probe.ParseBodyField` | linenoise.py:73-75 | a parsed body has exactly one `;`, and its value is `int()` of the text after it |
| `Probe.ParseTwoFields` | linenoise.py:73-75 | a body with one `;` parses as `int()` of its second field |
| `Probe.SpacedSignBody` | linenoise.py:73-75 | blanks after the sign are accepted: `rows;- digits` parses as minus the digits' value |
| `Probe.SpacedSignInt` | linenoise.py:75 | `int('- ' + digits)` is minus the digits' value |
| `Probe.FramedReply` | linenoise.py:70-73 | a framed reply is parsed from the bytes between `ESC [` and `R` |
| `Probe.ParseFields` | linenoise.py:73-75 | `rows;cols` with digits in `cols` gives the value of `cols` |
| `Probe.WellFormedReport` | linenoise.py:57-75 | with room for the query and a well-formed report waiting, the answer is the report's column, the report is consumed, and the query is the output |
| `Probe.Columns` | linenoise.py:77-101 | `get_columns` never answers a negative width and leaves the terminal's attributes and size alone |
| `Probe.RestoreColumn` | linenoise.py:99-100 | a cursor-left of `cols - start` is written only when `cols > start`, and nothing is read |
| `Probe.GetColumns` | linenoise.py:77-101 | the method computes what `Columns` describes |
| `Probe.ColumnsFromIoctl` | linenoise.py:82-87 | a nonzero ioctl column count is the answer, with nothing read or written |
| `Probe.ColumnsRaises` | linenoise.py:89-95 | an exception from the first or the second cursor query propagates out of `get_columns` |
| `Probe.ColumnsFallback` | linenoise.py:87-97 | a negative first query, a short margin write or a negative second query each gives 80 |
| `Probe.ColumnsMeasured` | linenoise.py:87-101 | with two well-formed reports, the width is the second report's column; the output is query, margin move, query, then the cursor-left back to the first column |
| `Probe.MeasuredQueries` | linenoise.py:89-95 | the two queries read the two reports around a margin move that is written whole |
| `Probe.SecondReport` | linenoise.py:95 | the second query reads its report after the first query and the margin move |
| `Probe.QueryThenMargin` | linenoise.py:89-93 | the first query reads its report and the margin move is written whole after it |
| `Probe.ColumnsBothQueries` | linenoise.py:87-101 | when both queries answer a column, the width is the second and the cursor goes back to the first |
| `History.Added` | linenoise.py:279-291 | `history_add` invents no entry and adds at most one; with a nonzero bound the line is present afterwards, and a new line goes last |
| `History.AddedUnchanged` | linenoise.py:279-286 | `history_add` changes nothing when the bound is 0 or the line is already present |
| `History.AddedKeepsInvariant` | linenoise.py:279-291 | a distinct history within its bound stays so; the new line is last, after the oldest entry is dropped when the history was full |
| `History.OverfullHistoryGrows` | linenoise.py:288-291 | a history already past its bound is not trimmed: it grows by one |
| `History.Newest` | linenoise.py:297-301 | the newest `min(len, n)` entries, in their order |
| `History.NewestKeepsInvariant` | linenoise.py:293-301 | after `history_set_maxlen(n)` a distinct history stays distinct and within `n` |
| `History.DistinctSuffix` | linenoise.py:301 | dropping the oldest entries keeps the rest distinct |
| `History.SaveText` | linenoise.py:309 | the text of an empty history is empty, and newline-free entries are exactly the newline-separated fields of the text |
| `History.ReadLines` | linenoise.py:317 | `readlines()`: the lines concatenate back to the text; each is nonempty, has no newline before its last character, and all but the last end in a newline |
| `History.LoadEntries` | linenoise.py:312-319 | the loaded history is the stripped lines, one per line, and every entry is newline-free and stripped whatever the file held |
| `History.StrippedLinesClean` | linenoise.py:317-319 | a line with no newline before its last character strips to a newline-free, stripped entry |
| `History.ReadLinesOfJoin` | linenoise.py:309-317 | the lines of joined newline-free entries: each entry with its newline, the last one without, and no line for an empty last entry |
| `History.LinesOfJoinStep` | linenoise.py:309-317 | the lines of a join are the first entry with its newline, then the lines of the rest |
| `History.ReadLinesAt` | linenoise.py:317 | `readlines` takes the text up to the first newline as a line, then reads the rest |
| `History.SaveLoadRoundTrip` | linenoise.py:303-319 | loading what was saved gives back the history exactly when its entries have no newline or surrounding whitespace and the last one is nonempty |
| `History.SaveLoadStorable` | linenoise.py:303-319 | a storable history survives save then load |
| `History.LoadStoredLines` | linenoise.py:317-319 | text whose lines are the entries, with or without a newline, loads back as the entries |
| `History.StripStored` | linenoise.py:319 | a stored entry strips back to itself with or without its newline |
| `History.OldestEvicted` | linenoise.py:288-291 | with room for two, adding `x`, `y`, `z` keeps `y`, `z` |
| `History.DuplicateSuppressed` | linenoise.py:284-286 | adding the same line twice keeps one copy |
| `History.ThreeEntriesRoundTrip` | linenoise.py:303-319 | `["a", "b", "c"]` survives save then load |
| `Linenoise.StopIndex` | linenoise.py:206-210 | where the first ENTER or CTRL_C is, with none before it |
| `Linenoise.EditLoop` | linenoise.py:205-212 | the edit loop leaves the terminal's attributes alone and consumes input, unless it raised at the end of input |
| `Linenoise.EditReadsToStop` | linenoise.py:205-213 | the loop reads through the first stop byte. It answers the bytes before it on ENTER, None on CTRL_C, and `TypeError` when none comes. It echoes those bytes as far as the output has room |
| `Linenoise.EchoStep` | linenoise.py:211-212 | echoing one ordinary byte and then going on keeps the loop's description |
| `Linenoise.EchoStepOutput` | linenoise.py:195 | the output after one echo and the rest is the echo of the bytes before the stop |
| `Linenoise.EchoStepRest` | linenoise.py:207 | the input left after one echo and the rest is what follows the stop byte |
| `Linenoise.EchoStepAnswer` | linenoise.py:208-213 | the answer after one echo and the rest is the line with that byte first |
| `Linenoise.EditSession` | linenoise.py:197-213 | an exception from `get_columns` propagates; a short prompt write gives None with no input read |
| `Linenoise.EditedLine` | linenoise.py:197-213 | once `get_columns` answered without raising (by the ioctl or by the fallback) and the prompt fits, `edit` answers the bytes before the first ENTER, None on CTRL_C, `TypeError` at the end of input; the output is the prompt and the echo, and the input after the stop byte is left |
| `Linenoise.UnsupportedTerm` | linenoise.py:105-109 | `TERM` is unsupported exactly when it is set to `dumb`, `cons25` or `emacs`; an unset `TERM` is supported |
| `Linenoise.NoTtyResult` | linenoise.py:224-228 | `read_no_tty` gives None exactly when the line is all newlines (the end of input or an empty line), and otherwise a nonempty slice of the line with only newlines removed around it |
| `Linenoise.NoTtyLine` | linenoise.py:224-228 | a piped line comes back without its newline; `"\n"` and `""` both give None |
| `Linenoise.StripOneNewline` | linenoise.py:226 | stripping `'\n'` from a newline-free line plus one newline gives the line |
| `Linenoise.LineState.constructor` | linenoise.py:113-123 | a new line state: empty buffer, cursor 0, the prompt and the measured width |
| `Linenoise.Linenoise.constructor` | linenoise.py:129-133 | an empty history bounded by 100, not raw, exit hook not registered |
| `Linenoise.Linenoise.HistoryAdd` | linenoise.py:279-291 | the scan and append give `Added` of the old history, and keep a valid history valid |
| `Linenoise.Linenoise.HistorySetMaxlen` | linenoise.py:293-301 | a negative `n` changes nothing; otherwise the bound becomes `n` and the newest `n` entries stay |
| `Linenoise.Linenoise.HistorySave` | linenoise.py:303-310 | the text written is the entries joined by newlines, and it loads back to the history exactly when the history is storable |
| `Linenoise.Linenoise.HistoryLoad` | linenoise.py:312-319 | the history becomes the stripped lines of the file, or empty when there is no file |
| `Linenoise.Linenoise.EnableRawmode` | linenoise.py:135-161 | on a non-terminal: -1 and nothing changes. Otherwise: 0, the attributes saved, the raw ones in place, raw mode on, and the exit hook registered at most once |
| `Linenoise.Linenoise.DisableRawmode` | linenoise.py:163-167 | a no-op unless raw; then the saved attributes are restored; raw mode is off afterwards |
| `Linenoise.Linenoise.EditInsert` | linenoise.py:190-195 | with the cursor at the end, the byte is appended, the cursor advances and the byte is echoed; otherwise nothing changes |
| `Linenoise.Linenoise.Edit` | linenoise.py:197-213 | the loop keeps the cursor at the end of the buffer and computes `EditSession`. The placeholder `''` is added to the history unless `get_columns` raised |
| `Linenoise.Linenoise.ReadRaw` | linenoise.py:215-222 | None and nothing changed when raw mode cannot be entered. Otherwise (`RawRead`) an edit on the raw terminal: the attributes saved, the exit hook registered once, the placeholder added unless `get_columns` raised, the bound kept; a read that returns leaves raw mode off and the attributes as they were, a raised edit leaves raw mode on and the device as the edit left it. A valid history stays valid |
| `Linenoise.Linenoise.Read` | linenoise.py:239-248 | a pipe gives the `read_no_tty` rule and an unsupported terminal what `raw_input` returned, both leaving the linenoise object and the modelled device unchanged; any other terminal gives a raw read with every effect `RawRead` states. A valid history stays valid |

## Left out

- File handling in `history_save` and `history_load` (`open`, `umask`, `chmod`, `os.path.isfile`) is not modelled. `HistorySave` returns the text, and `HistoryLoad` takes the file's text, or `None` for a missing file.
- The `atexit` hook and its `'\r'` write, `beep` and `clear_screen` are left out; they are process-level side effects. Only the registration flag, and a ghost count of registrations, are modelled.
- The `sys.stdout.write('\r\n')` at linenoise.py:221 is left out: it goes through Python's buffered stream, not `os.write`, so there is no order to model against the device output.
- The input flush of `TCSAFLUSH` is left out, both in `enable_rawmode` (linenoise.py:159) and in `disable_rawmode` (linenoise.py:166). The device's input is taken to be what arrives after raw mode is set, and the input still unread when `read_raw` leaves raw mode is kept in the device instead of being discarded.
- `tcsetattr` and `tcgetattr` failures (`termios.error`) are left out: the model assumes both calls succeed on a terminal.
- The `OSError` that `os.read` and `os.write` can raise (linenoise.py:60, 66, 93, 100, 195, 203, 206) is left out: a device read or write always completes, a write possibly short.
- `raw_input` in `read_unsupported_term` and `sys.stdin.readline()` in `read_no_tty` are library wrappers. `Read` takes what they returned as the `plainLine` and `pipedLine` parameters. The modelled device therefore does not reflect the prompt `raw_input` writes to standard output or the bytes either wrapper consumes from standard input.
- `TERM` is passed to `Read` as a parameter, since reading the environment is I/O.
- `print_keycodes` (linenoise.py:250-277) is a debug loop and is left out.
- The empty stubs `refresh_show_hints` and `refresh_single_line` are left out.
- `Text.ParseInt`: models Python 2 `int(s, 10)` on a byte string as whitespace, an optional sign, blanks, ASCII decimal digits, then whitespace. The result is unbounded, as `int()` moves to a long on overflow.
- `Text.Strip`: its whitespace set is `' '`, `\t`, `\n`, `\r`, `\v` and `\f`, as Python 2 `str.strip()` has it for byte strings.
- The column count from the ioctl is an unsigned 16-bit field; `Os.Device.Valid` bounds it, and the `struct` packing is not modelled.
