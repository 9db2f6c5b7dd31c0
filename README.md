# ZLE interactive line editor

A model of the interactive line editor in `examples/zle_interactive.c` of
libzsh. The editor keeps its state in the ZLE line buffer:

- the array `zleline`;
- the cursor `zlecs`;
- the line length `zlell`.

`readline_zle` reads raw terminal bytes with `getchar` until one of these ends the read:

- Enter accepts the line.
- Ctrl+C, Ctrl+D on an empty line, or end of input cancels, and it returns NULL.

Every other byte or escape sequence (`ESC x`, `ESC [ x`, `ESC [ 3 x`) either edits
the buffer (inserts a printable character, deletes, kills, or moves the cursor) or
is read and ignored: unhandled control and high bytes, Up and Down, an unknown
`ESC [ x`, and ESC followed by a byte other than `[`.
The recognised sequences `ESC [ A`, `B`, `C`, `D`, `H`, `F` and `ESC [ 3 ~` are
control sequences in the sense of section 5.4 of ECMA-48, but the decoder does not
parse that form. It takes exactly one byte after `ESC [` as the final byte, and it
does not check the byte after `ESC [ 3`. So a sequence with parameter bytes, such
as `ESC [ 1 ; 5 C`, is split: `ESC [ 1` is read and ignored, and `;5C` is inserted.

The model has five modules:

- `ZleModel` (`zle_model.dfy`) gives the buffer as a value, `Editor(text, cursor)`.
  It also gives the primitives `insert_char`, `foredel` and `backdel` as functions on that value.
- `ZleKeys` (`zle_keys.dfy`) is the byte decoder. It says which key starts at an input
  position and how many bytes it takes. It also says when input runs out inside a key.
- `ZleRead` (`zle_read.dfy`) is the specification of a read:
  - `Apply` gives the effect of one key;
  - `Run` gives the read loop over an input byte sequence from a position;
  - `ReadLine` gives a whole call from an empty buffer.
  Its lemmas state key by key what the loop does. They also state that a finished read
  ignores later input, and they work through one end-to-end example.
- `ZleBuffer` (`zle_buffer.dfy`) is the buffer as the C code keeps it. It is a class
  `ZleLine` with the array `zleline` and the fields `zlecs` and `zlell`.
  `sizeline`, `spaceinline`, `foredel` and `backdel` work in place on that array.
  `SizeLine` is proved to keep the buffer state. `SpaceInline` is proved to keep the
  text before the cursor and move the text after it. `ForeDel` and `BackDel` are
  proved to have the effect of the `ZleModel` function of the same name, and
  `insert_char` (`SpaceInline` followed by the store) of `ZleModel.InsertChar`.
- `ZleInteractive` (`zle_interactive.dfy`) holds the imperative `insert_char` and `readline_zle`.
  - `readline_zle` is a `while (!done)` loop over the input.
  - It is proved to return exactly what `ZleRead.ReadLine` says: the line on Enter and `None` on every cancel.
  - It is also proved to return the position of the first byte it did not read.
  - The byte cases of its `switch` are in `DeleteByte`, `KillByte` and `EditByte`. The `ESC` case is in
    `ReadEscapeSequence`. Each of them is proved to do what `Apply` says for the key it reads.

The terminal is a byte sequence read from position 0, and `getchar`'s EOF is the end of that sequence.

Worked example (`ZleRead.EchoHiExample`): type `echo hi`, then Left twice, then `X`, then Enter.
The read returns `echo Xhi`: after `echo hi` the cursor is at 7, and two Lefts put it at 5, just before `h`.

## Model

| member | source | states |
|---|---|---|
| ZleModel.InsertChar | examples/zle_interactive.c:163-168 | insert_char: the line grows by one and the cursor moves one right. The text before the cursor is kept, c lands at the old cursor, and the rest moves one place right. Printable text stays printable |
| ZleModel.ForeDel | examples/zle_interactive.c:225-238 | foredel(n): removes min(n, length - cursor) units at the cursor, and the cursor stays. The text before the cursor is kept and the text after the removed units moves left |
| ZleModel.BackDel | examples/zle_interactive.c:240-246 | backdel(n): removes min(n, cursor) units just before the cursor and moves the cursor back over them. The text is the prefix up to the new cursor followed by the suffix from the old one |
| ZleModel.InsertThenBackDelRestores | examples/zle_interactive.c:240-246 | backdel(1) right after insert_char(c) gives back the buffer exactly as it was |
| ZleModel.ForeDelAtEndIsNoOp | examples/zle_interactive.c:225-230 | foredel at the end of the line, or by 0 units, changes nothing. This is why the guarded calls may skip it |
| ZleKeys.Decode | examples/zle_interactive.c:185-291 | a key is 1 to 4 bytes. It is longer than one byte exactly when it starts with ESC. Input runs out at the end of the input, after ESC, after ESC [, or after ESC [ 3, and nowhere else. Only printable bytes become SelfInsert, as read. Enter is CR or LF, Ctrl+C is 3 and Ctrl+D is 4 |
| ZleKeys.DecodeIgnoresLaterInput | examples/zle_interactive.c:248-291 | decoding a complete key does not depend on bytes after it |
| ZleKeys.EscapeLengths | examples/zle_interactive.c:248-291 | ESC followed by a byte other than [ takes 2 bytes. The arrows take 3. ESC [ 3 x takes 4, and it is the only key that does |
| ZleRead.Apply | examples/zle_interactive.c:191-300 | every key keeps 0 <= cursor <= length and keeps a printable line printable. A key accepts exactly when it is Enter, and then returns the whole text. A key cancels exactly when it is Ctrl+C, or Ctrl+D on an empty line |
| ZleRead.Run | examples/zle_interactive.c:185-301 | an accepted read ends at a CR or LF. A cancelled read ends at Ctrl+C or Ctrl+D. A line accepted from printable text is printable |
| ZleRead.ReadLine | examples/zle_interactive.c:171-185 | a read starts from the empty buffer. Every line it accepts is printable |
| ZleRead.EnterAcceptsWholeLine | examples/zle_interactive.c:192-197 | Enter returns the whole text, wherever the cursor is, and reads nothing more |
| ZleRead.CtrlCCancels | examples/zle_interactive.c:199-201 | Ctrl+C cancels in any state |
| ZleRead.CtrlDOnEmptyLineCancels | examples/zle_interactive.c:203-207 | Ctrl+D on an empty line cancels |
| ZleRead.EndOfInputCancels | examples/zle_interactive.c:186-189 | running out of input cancels at a key boundary, after ESC, after ESC [ and after ESC [ 3 |
| ZleRead.RunIgnoresLaterInput | examples/zle_interactive.c:185-301 | a read that ended by Enter, Ctrl+C or Ctrl+D has the same outcome whatever bytes follow it |
| ZleRead.UnhandledByteIsSkipped | examples/zle_interactive.c:293-299 | a byte no case handles is read and changes nothing |
| ZleRead.EscapeWithoutBracketIsSkipped | examples/zle_interactive.c:248-252 | ESC followed by a byte other than [ reads two bytes and changes nothing |
| ZleRead.IgnoredSequenceIsSkipped | examples/zle_interactive.c:256-289 | Up, Down and unknown ESC [ x read three bytes and change nothing |
| ZleRead.PrintableByteIsInserted | examples/zle_interactive.c:293-298 | a printable byte is inserted at the cursor, and the cursor steps over it |
| ZleRead.BackspaceDeletesBeforeCursor | examples/zle_interactive.c:240-246 | DEL or Ctrl+H removes the character before the cursor and moves the cursor back. At cursor 0 it changes nothing |
| ZleRead.CtrlKKillsToEnd | examples/zle_interactive.c:225-230 | Ctrl+K leaves the text before the cursor, with the cursor at its end |
| ZleRead.CtrlUKillsWholeLine | examples/zle_interactive.c:232-238 | Ctrl+U leaves the empty line with the cursor at 0 |
| ZleRead.DeleteAtCursor | examples/zle_interactive.c:209-212 | below the end of the line it removes the character at the cursor, and the cursor stays. At the end it changes nothing |
| ZleRead.CtrlDDeletesAtCursor | examples/zle_interactive.c:208-213 | Ctrl+D on a non-empty line deletes at the cursor |
| ZleRead.DeleteKeyDeletesAtCursor | examples/zle_interactive.c:280-288 | ESC [ 3 and any fourth byte delete at the cursor, even on an empty line, where they do not cancel |
| ZleRead.HomeMovesToStart | examples/zle_interactive.c:215-218 | Ctrl+A (1 byte) and ESC [ H (3 bytes) put the cursor at 0 and keep the text |
| ZleRead.EndMovesToEnd | examples/zle_interactive.c:220-223 | Ctrl+E (1 byte) and ESC [ F (3 bytes) put the cursor at the end of the line and keep the text |
| ZleRead.RightArrowMovesRight | examples/zle_interactive.c:260-265 | ESC [ C moves the cursor one place right, but not past the end |
| ZleRead.LeftArrowMovesLeft | examples/zle_interactive.c:266-271 | ESC [ D moves the cursor one place left, but not below 0 |
| ZleRead.TypeThenBackspaceRestores | examples/zle_interactive.c:240-246 | typing a printable character and then Backspace gives back the state from before |
| ZleRead.RightThenLeftRestores | examples/zle_interactive.c:260-271 | away from the end of the line, Right then Left gives back the state from before |
| ZleRead.TypedPrefixIsInserted | examples/zle_interactive.c:293-298 | typing n printable bytes into the empty buffer leaves exactly those bytes, with the cursor after them |
| ZleRead.EchoHiExample | examples/zle_interactive.c:171-307 | `echo hi`, Left, Left, `X`, CR returns `echo Xhi` after reading all 15 bytes |
| ZleBuffer.ShiftUp | examples/zle_interactive.c:53 | the data movement of spaceinline: a[lo..hi) moves ct places right, and a[..lo) and a[hi+ct..] are kept |
| ZleBuffer.ShiftDown | examples/zle_interactive.c:54 | the data movement of foredel: a[lo+n..hi) moves n places left, and a[..lo) and a[hi-n..] are kept |
| ZleBuffer.ZleLine.SizeLine | examples/zle_interactive.c:177 | sizeline(sz): the array holds at least sz units, and the line and the cursor are kept |
| ZleBuffer.ZleLine.SpaceInline | examples/zle_interactive.c:165 | spaceinline(ct): the line grows by ct and the cursor stays. The text before the cursor is kept and the text after it moves ct places right |
| ZleBuffer.ZleLine.ForeDel | examples/zle_interactive.c:210 | foredel in place: the new buffer state is ZleModel.ForeDel of the old one |
| ZleBuffer.ZleLine.BackDel | examples/zle_interactive.c:243 | backdel in place: the new buffer state is ZleModel.BackDel of the old one |
| ZleInteractive.InsertChar | examples/zle_interactive.c:163-168 | insert_char on the array: the new buffer state is ZleModel.InsertChar of the old one |
| ZleInteractive.DeleteByte | examples/zle_interactive.c:203-246 | the Ctrl+D (non-empty line) and Backspace cases change the buffer exactly as Apply says |
| ZleInteractive.KillByte | examples/zle_interactive.c:225-238 | the Ctrl+K and Ctrl+U cases change the buffer exactly as Apply says |
| ZleInteractive.EditByte | examples/zle_interactive.c:203-299 | every one-byte case that does not end the read changes the buffer exactly as Apply says |
| ZleInteractive.ReadEscapeSequence | examples/zle_interactive.c:248-291 | the ESC case stops with EOF exactly where Decode finds the key incomplete. Otherwise it reads exactly the bytes of the decoded key and changes the buffer as Apply says |
| ZleInteractive.ReadLineZle | examples/zle_interactive.c:171-307 | readline_zle returns Some(line) exactly when ReadLine accepts that line, and None on every cancel. The buffer then holds that line. It reports the position where the read stopped |

## Left out

- Screen output: `refresh_line`, the prompt and the echoed `\r\n` and `^C` (examples/zle_interactive.c:143-160 and the `printf` calls). They only write to the terminal and do not change the buffer.
- Terminal raw mode through termios (examples/zle_interactive.c:58-96). This is operating-system I/O.
- `init_zle_subsystem` and `main`, including the parse demo (examples/zle_interactive.c:98-140, 309-371). They set up global tables and call the lexer and parser, which are not part of this model.
- tests/test_main.c: it tests the lexer, parser, reserved-word table and allocator, which are not part of this model.
- tests/test_zle.c: a demo that only prints and asserts nothing. Its calls of `spaceinline` and `foredel` (tests/test_zle.c:149-153, 161-162) use them as modelled here, but it relies on `stringaszleline`, `setline` and keymap code that are not part of this model.
- `zlelineasstring` and `ztrdup`: the returned string is the buffer's bytes `zleline[0 .. zlell)` themselves. Wide-character and metafied conversion is not modelled.
- The `flags` argument of `foredel` and `backdel`: it is always 0 here, so cutting to the kill ring is not modelled.
- ZleBuffer.ZleLine.SizeLine: the growth policy is assumed, because the real `sizeline` is not part of this model. The model grows to the larger of `sz` and twice the old size. An allocation failure is not modelled.
- ZleBuffer.ZleLine.ForeDel and ZleBuffer.ZleLine.BackDel clamp the count to the units available. Every call site in readline_zle already guards the count, so the clamp is never reached from there.
- `getchar` results: every result other than EOF is taken to be a byte 0..255. The process-wide globals `zleline`, `zlecs` and `zlell` are the fields of one `ZleLine` object that is passed in.
