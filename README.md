# Keyboard-echo raw terminal session, modelled in Dafny

The modelled program is a small tool generated as C from PureBasic. It
switches the controlling terminal (descriptor 0) into raw mode. It then reads
keystrokes one byte at a time and prints one line per byte: the byte in hex,
then for a printable byte a space and the character. When the quit key `q`
is read, it restores the terminal's original attributes and exits.

The model has four parts:

- `Termios` (`termios.dfy`): the packed 68-byte `termios` record and the
  derivation of the raw attributes. The four flag words and the two speeds
  are 64-bit words (`Word`, a `bv64` bit pattern); the control-character
  table has 20 byte slots. The generated code clears and sets bits with the
  folded literals -819, -2, 768 and -1417. The model proves that these are
  the complements (or the OR) of the named flags. It states raw mode field by
  field (`IsRawOf`) and proves that the derivation `RawFrom` meets that
  definition and is the only record that does.
- `Tty` (`tty.dfy`): the terminal as an object. Its live attributes are a
  field that `GetAttr` (tcgetattr) reads and `SetAttr` (tcsetattr) replaces.
  Every call is logged. What the driver keeps of a configuration (`keep`)
  and the status code of each call (`reply`, given the calls before it)
  are fixed functions of the device. Status 0 is success; a call that
  fails changes nothing but the log.
- `RawMode` (`rawmode.dfy`): the globals `g_orig`, `g_raw` and `g_retval` as
  the fields of a session object, with `EnableRawMode` and `DisableRawMode`
  operating on them. No status code is ever inspected.
- `KeyLoop` (`keyloop.dfy`) and `KeyEcho` (`keyecho.dfy`): the body of
  `main`. It makes one read before the `do … while` loop. Each pass prints
  the byte in `buf[0]` if the last read returned 1, reads again and reloads
  `c` from `buf[0]`. The loop ends when `c` is `q`, and raw mode is then
  disabled. Reads are given as a finite sequence of outcomes, each a count
  and a byte. `iscntrl`, `Hex` and `Chr` are uninterpreted functions
  (`Platform`).

What the code does, and the model with it:

- The session does not end on every `q`. The code tests for the quit key
  only after a read made inside the loop. It tests `c`, which is reloaded
  from `buf[0]` even when that read transferred nothing.
  - A `q` typed as the very first key is printed. It ends the session only
    if the next read transfers nothing (`FirstQThenTimeout`).
  - If another key follows that first `q` at once, the loop goes on
    (`FirstQThenKey`).
  - `KeyLoop.QuitsIff` states the exact rule.
- The quit key that ends the loop is never printed (`QuitKeyNotPrinted`).
  The first byte is always printed, even when it is `q` (`FirstKeyPrinted`).
- The code checks no return value of `tcgetattr` or `tcsetattr`. A failed
  call is followed by the next step all the same. A failed first query
  leaves `g_orig` as it was, zero-filled at start, and disabling raw mode
  then writes that record back (`FailedSnapshotRestoresZero`).
- A byte counts as a control byte exactly when `iscntrl` returns 1. Any other
  nonzero value makes it printable.

## Model

| member | source | states |
|---|---|---|
| Termios.LiteralMasksAreNamedFlags | purebasic.c:187-198 | -819 is the complement of BRKINT, ICRNL, INPCK, ISTRIP and IXON (0x332); -2 is the complement of OPOST; 768 is CS8; -1417 is the complement of ECHO, ICANON, IEXTEN and ISIG (0x588) |
| Termios.IflagLiteral | purebasic.c:187-189 | ANDing the input flags with -819 clears exactly the named input flags |
| Termios.OflagLiteral | purebasic.c:190-192 | ANDing the output flags with -2 clears exactly OPOST |
| Termios.CflagLiteral | purebasic.c:193-195 | ORing 768 into the control flags sets CS8 |
| Termios.LflagLiteral | purebasic.c:196-198 | ANDing the local flags with -1417 clears exactly the named local flags |
| Termios.ClearBitsClearsExactly | purebasic.c:187-198 | clearing a mask leaves its bits zero and every other bit as it was |
| Termios.ClearsExactlyIsClearBits | purebasic.c:187-198 | a word with exactly the mask's bits cleared is the cleared word, so the field-wise definition has one solution |
| Termios.SetBitsSetsCs8 | purebasic.c:193-195 | ORing in CS8 makes the CSIZE field read CS8 and keeps every other control bit |
| Termios.SetsCs8IsSetBits | purebasic.c:193-195 | a word whose CSIZE field reads CS8, with every other bit unchanged, is the ORed word |
| Termios.LiteralEditsAreRawFrom | purebasic.c:185-204 | the structure copy followed by the six literal edits yields exactly the raw attributes `RawFrom` |
| Termios.RawFromIsRaw | purebasic.c:185-204 | the derived record meets the field-by-field raw-mode definition: the named flags cleared or set, VMIN 0, VTIME 1, every other cc slot, every other bit and both speeds unchanged |
| Termios.RawOfIsUnique | purebasic.c:185-204 | any record meeting that definition equals the derived record |
| Termios.RawModeSettings | purebasic.c:185-204 | the raw record has echo, canonical mode, signals, IEXTEN, output post-processing, IXON and ICRNL off, CS8 character size, VMIN 0 and VTIME 1 |
| Termios.RawFromIdempotent | purebasic.c:185-204 | deriving raw attributes from raw attributes changes nothing |
| Tty.Terminal.GetAttr | purebasic.c:109 | tcgetattr fills the record it is given with the live attributes when its status is 0 and leaves the record as it was otherwise; it changes nothing on the device and logs the call |
| Tty.Terminal.SetAttr | purebasic.c:110 | tcsetattr makes what the driver keeps of the given record the live attributes when its status is 0, leaves them as they were otherwise, and logs the call with its action |
| RawMode.RawModeSession.constructor | purebasic.c:164-169 | the attribute globals start zero-filled and the status global starts at 0 |
| RawMode.RawModeSession.EnableRawMode | purebasic.c:177-220 | snapshots the live attributes into `orig` (which keeps its old value if the query fails), applies `RawFrom(orig)` with TCSAFLUSH, re-queries into `raw` (which keeps `RawFrom(orig)` if that query fails), keeps only the last status in `retval`, returns 0 whatever the statuses; the calls happen in exactly that order |
| Termios.RawFrom | purebasic.c:186-204 | the derived record has the raw-mode input, output and local bits off, character size CS8, VMIN 0, VTIME 1, and every other control character and both speeds of the snapshot |
| RawMode.RawModeSession.CopyAndDerive | purebasic.c:185-204 | the copy of `orig` edited with the literal masks is `RawFrom(orig)` |
| RawMode.RawModeSession.DisableRawMode | purebasic.c:410-422 | applies the unchanged snapshot `orig` with TCSAFLUSH (the attributes stay as they were if that call fails), returns 0, and writes no global |
| RawMode.EnableThenDisable | purebasic.c:410-422 | on a terminal that keeps its starting attributes, enable followed by disable leaves the attributes as they were when the snapshot and the restore succeed; otherwise the attributes, `orig`, `raw` and `retval` are those the failed calls leave |
| RawMode.FailedSnapshotRestoresZero | purebasic.c:182-183 | on any terminal, on a fresh session whose first query fails, `orig` stays zero-filled and the restore hands the terminal a zero-filled record |
| KeyLoop.Classify | purebasic.c:1039-1040 | a byte is a control byte exactly when `iscntrl` returns 1 |
| KeyLoop.Render | purebasic.c:1039-1067 | every line starts with the hex text; it is the hex text alone exactly for control bytes; for printable bytes a space and the character follow |
| KeyLoop.Stored | purebasic.c:1025-1082 | after a read that transfers a byte the buffer holds that byte; the buffer only ever holds 0 or a byte some read transferred |
| KeyLoop.LastTransfer | purebasic.c:1077-1082 | the index of the latest read that transferred a byte, with no transferring read after it |
| KeyLoop.StoredIsLastTransfer | purebasic.c:1077-1082 | `buf[0]` (and so `c`) holds the byte of the latest transferring read, or the buffer's initial zero |
| KeyLoop.FirstQuitFrom | purebasic.c:1086-1087 | the first read number from a given one on that leaves `q` in the buffer; none before it does |
| KeyLoop.QuitRead | purebasic.c:1032-1089 | the stop test first runs after the second read; the loop stops at the first read from there on that leaves `q` in the buffer |
| KeyLoop.Handled | purebasic.c:1032-1089 | some outcomes are left unhandled exactly when the loop stops; it then handles at least the first read and every read before the stopping one |
| KeyLoop.Lines | purebasic.c:1036-1067 | at most one line is printed per read handled |
| KeyLoop.KeysAreTransferredBytes | purebasic.c:1036 | a byte is among those printed exactly when some handled read returned 1 with it |
| KeyLoop.LinesRenderKeys | purebasic.c:1036-1067 | the output is the rendering of the transferred bytes, one line each, in order |
| KeyLoop.LinesGrow | purebasic.c:1032-1089 | handling more reads only appends lines |
| KeyLoop.LinesOfPrefix | purebasic.c:1032-1089 | the lines of the first reads depend on those reads only |
| KeyLoop.ShortReadChangesNothing | purebasic.c:1036 | a read that does not return 1 prints nothing and leaves the buffer unchanged |
| KeyLoop.ControlByteRendersAsHex | purebasic.c:1039-1048 | with the C locale's `iscntrl`, a byte below 0x20 or DEL prints as its hex text alone |
| KeyLoop.PrintableByteRendersWithChar | purebasic.c:1060-1067 | with the C locale's `iscntrl`, a byte from 0x20 to 0x7E prints as hex, a space and the character |
| KeyLoop.QuitKeySource | purebasic.c:1078-1087 | when the loop stops, the `q` came from the read that stopped it, or from the read before the loop with no byte transferred since |
| KeyLoop.QuitsIff | purebasic.c:1022-1089 | the loop stops exactly when a read inside the loop transfers `q`, or when the first read transferred `q` and the second transferred nothing |
| KeyLoop.NoQuitKeyNoQuit | purebasic.c:1086-1087 | reads that never transfer `q`, however many, never stop the loop |
| KeyLoop.FirstKeyPrinted | purebasic.c:1024-1048 | the byte of the read before the loop is always handled and printed first, even when it is `q` |
| KeyLoop.QuitKeyNotPrinted | purebasic.c:1078-1089 | the output of a stopped loop is that of the reads before the stopping read |
| KeyLoop.TypingAThenQ | purebasic.c:1022-1089 | keys "A" then "q" print exactly the line "41 A" and stop the loop |
| KeyLoop.TypingCtrlCThenQ | purebasic.c:1022-1089 | keys Ctrl-C then "q" print exactly the line "3" and stop the loop |
| KeyLoop.FirstQThenTimeout | purebasic.c:1022-1089 | a first key "q" followed by a read that transfers nothing prints that "q" and stops the loop at the second read |
| KeyLoop.FirstQThenKey | purebasic.c:1022-1089 | a first key "q" followed at once by another key prints both and does not stop the loop |
| KeyLoop.ReadInto | purebasic.c:1077-1079 | a read returns its count and overwrites `buf[0]` only when it transfers a byte; the rest of the buffer is untouched |
| KeyLoop.ReadLoop | purebasic.c:1019-1089 | the loop stops exactly when `Quits` holds, after `QuitRead` reads, otherwise after all of them; it prints `Lines` of the handled reads; `c` is the stored byte (`q` on stopping) and the status is the last read's count |
| KeyEcho.RunSession | purebasic.c:1015-1095 | enable, loop, then disable only when the loop stopped; the attribute calls come in that order; the terminal ends up with the snapshot on stopping and with the raw attributes otherwise (each only if its call succeeded); `raw` holds the re-queried raw attributes; the status global ends with the last read's count, or the re-query's status when there was no read |

## Left out

- Dynamic loading of libc and symbol lookup (`f_getlibctermios`, `f_getlibcerrno`, purebasic.c:222-408) is not modelled. Its only effect is to abort if a pointer is null; the model assumes every function was found.
- The runtime's string machinery (`SYS_*`), `PB_PrintN`, `PB_Hex`, `PB_Chr` and `PB_Asc` are not modelled. `Hex` and `Chr` are uninterpreted. Printing is modelled as appending a line to the output. `Asc("q")` is the constant 0x71.
- The terminal driver's semantics are left to the `Terminal` object's `keep` and `reply`. These cover which bits it drops and the status of each call. Draining output and flushing pending input under TCSAFLUSH are not modelled. The flush is absorbed only because the read outcomes given to the loop are those of the reads made after raw mode was enabled.
- A failed `tcgetattr` or `tcsetattr` is modelled as having no effect. POSIX does not promise that a failed call leaves its record untouched.
- The VTIME timing is left out. A read that times out is an outcome with count 0.
- `read` is modelled by its outcomes, a count and a byte, given in advance as a finite sequence. An endless input stream is not modelled. When the sequence runs out, the program is still waiting in a read, with the attributes enabling left (the raw ones if tcsetattr succeeded).
- A positive count other than 1 stores nothing in the model. A one-byte read cannot return such a count.
- Process start-up and exit (`SYS_Quit`, `PB_EndFunctions`, purebasic.c:432-447 and 1101-1109) are not modelled.
- The commented-out constant tables (purebasic.c:483-892) are not modelled: no code uses them. The flag values the derivation needs are named in `Termios`.
- `f_dumptermios` is not modelled: it is declared at purebasic.c:113 but has no body in the file.
- The descriptor is always 0 and the buffer length passed to `read` is always 1. Neither is a parameter.
- RawMode.RawModeSession.CopyAndDerive edits a local copy of `orig` field by field and then stores it in `raw` once. The generated code edits `g_raw` in place. The resulting state is the same.
- Tty.Terminal.GetAttr returns the record instead of writing it through a pointer. It is given the record's current value, and `EnableRawMode` stores the result in the field the C code passes.
- The platform's own `termios` layout is not modelled. The record is the program's packed 68-byte declaration (purebasic.c:120-128). The platform's structure may be laid out differently, and `tcgetattr` writes it into that declaration.
