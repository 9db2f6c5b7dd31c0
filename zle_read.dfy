/**
 * What readline_zle computes, as functions: the effect of each key on the
 * editor state (Apply), the loop over the input (Run) and a whole read from an
 * empty buffer (ReadLine).  The lemmas state, byte by byte, what each key does.
 */
module ZleRead {
  import opened ZleModel
  import opened ZleKeys

  datatype Option<T> = None | Some(value: T)

  /** What one key leaves behind: more editing, an accepted line, or a cancel. */
  datatype Step = Continue(next: Editor) | Accept(line: seq<Byte>) | Cancel

  /**
   * How a read ends, with the position just after the last byte it consumed:
   * Enter accepts the line, Ctrl+C or Ctrl+D on an empty line cancels, and
   * running out of input cancels too.
   */
  datatype Outcome = Accepted(line: seq<Byte>, next: nat) | Cancelled(next: nat) | EndOfInput

  /** readline_zle's value: the line on Enter, NULL (None) on every kind of cancel. */
  function Returned(o: Outcome): Option<seq<Byte>> {
    if o.Accepted? then Some(o.line) else None
  }

  /** The effect of one key on the line buffer. */
  function Apply(e: Editor, k: Key): (r: Step)
    requires e.Valid()
    ensures r.Continue? ==> r.next.Valid()
    ensures r.Continue? && Printable(e.text) && (k.SelfInsert? ==> IsPrintable(k.c)) ==> Printable(r.next.text)
    ensures r.Accept? <==> k.AcceptLine?
    ensures r.Accept? ==> r.line == e.text
    ensures r.Cancel? <==> k.SendBreak? || (k.DeleteCharOrEof? && e.text == [])
  {
    match k
    case AcceptLine => Accept(e.text)
    case SendBreak => Cancel
    case DeleteCharOrEof =>
      if |e.text| == 0 then Cancel
      else if e.cursor < |e.text| then Continue(ForeDel(e, 1))
      else Continue(e)
    case BeginningOfLine => Continue(e.(cursor := 0))
    case EndOfLine => Continue(e.(cursor := |e.text|))
    case KillLine =>
      if e.cursor < |e.text| then Continue(ForeDel(e, |e.text| - e.cursor)) else Continue(e)
    case KillWholeLine =>
      if |e.text| > 0 then Continue(ForeDel(e.(cursor := 0), |e.text|)) else Continue(e)
    case BackwardDeleteChar =>
      if e.cursor > 0 then Continue(BackDel(e, 1)) else Continue(e)
    case ForwardChar =>
      if e.cursor < |e.text| then Continue(e.(cursor := e.cursor + 1)) else Continue(e)
    case BackwardChar =>
      if e.cursor > 0 then Continue(e.(cursor := e.cursor - 1)) else Continue(e)
    case DeleteChar =>
      if e.cursor < |e.text| then Continue(ForeDel(e, 1)) else Continue(e)
    case UpLine => Continue(e)
    case DownLine => Continue(e)
    case SelfInsert(c) => Continue(InsertChar(e, c))
    case Undefined => Continue(e)
  }

  /** The read loop, from editor state e and input position pos. */
  function Run(e: Editor, input: seq<Byte>, pos: nat): (r: Outcome)
    requires e.Valid() && pos <= |input|
    // Enter is the last byte an accepted read consumes
    ensures r.Accepted? ==> pos < r.next <= |input| && (input[r.next - 1] == CR || input[r.next - 1] == LF)
    // a cancel by key is Ctrl+C, or Ctrl+D
    ensures r.Cancelled? ==> pos < r.next <= |input| && (input[r.next - 1] == CtrlC || input[r.next - 1] == CtrlD)
    // only printable bytes ever get into the line
    ensures r.Accepted? && Printable(e.text) ==> Printable(r.line)
    decreases |input| - pos
  {
    match Decode(input, pos)
    case Incomplete => EndOfInput
    case Complete(k, next) =>
      match Apply(e, k)
      case Accept(line) => Accepted(line, next)
      case Cancel => Cancelled(next)
      case Continue(e') => Run(e', input, next)
  }

  /** One call of readline_zle: the buffer starts empty and the input is read from its start. */
  function ReadLine(input: seq<Byte>): (r: Outcome)
    ensures r.Accepted? ==> Printable(r.line)
  {
    Run(Empty, input, 0)
  }

  /**
   * One turn of the loop: when the key at pos is k and applying it leaves e'
   * (or accepts), the read goes on from e' after the key (or ends there).
   */
  lemma Stepped(e: Editor, input: seq<Byte>, pos: nat, k: Key, next: nat, e': Editor)
    requires e.Valid() && pos <= |input| && Decode(input, pos) == Complete(k, next)
    requires Apply(e, k) == Continue(e') || (k.AcceptLine? && e' == e)
    ensures e'.Valid() && next <= |input|
    ensures k.AcceptLine? ==> Run(e, input, pos) == Accepted(e'.text, next)
    ensures !k.AcceptLine? ==> Run(e, input, pos) == Run(e', input, next)
  {
  }

  /** One turn of the loop on a key that cancels: the read ends there with no line. */
  lemma RunStep(e: Editor, input: seq<Byte>, pos: nat, k: Key, next: nat)
    requires e.Valid() && pos <= |input| && Decode(input, pos) == Complete(k, next)
    ensures Apply(e, k).Cancel? ==> Run(e, input, pos) == Cancelled(next)
  {
  }

  /** Ctrl+D on a line that is not empty is a forward delete, guarded as in the code. */
  lemma ApplyDeleteCharOrEof(e: Editor)
    requires e.Valid() && e.text != []
    ensures Apply(e, DeleteCharOrEof) == Continue(if e.cursor < |e.text| then ForeDel(e, 1) else e)
  {
  }

  /** Backspace is backdel(1), guarded as in the code. */
  lemma ApplyBackwardDeleteChar(e: Editor)
    requires e.Valid()
    ensures Apply(e, BackwardDeleteChar) == Continue(if e.cursor > 0 then BackDel(e, 1) else e)
  {
  }

  /** Ctrl+K is foredel of the rest of the line, guarded as in the code. */
  lemma ApplyKillLine(e: Editor)
    requires e.Valid()
    ensures Apply(e, KillLine) == Continue(if e.cursor < |e.text| then ForeDel(e, |e.text| - e.cursor) else e)
  {
  }

  /** Ctrl+U is foredel of the whole line from its start, guarded as in the code. */
  lemma ApplyKillWholeLine(e: Editor)
    requires e.Valid()
    ensures Apply(e, KillWholeLine) == Continue(if |e.text| > 0 then ForeDel(e.(cursor := 0), |e.text|) else e)
  {
  }

  // ---------------------------------------------------------------------------
  // Accepting and cancelling

  /** Enter returns the whole text, wherever the cursor is, and reads nothing more. */
  lemma EnterAcceptsWholeLine(e: Editor, input: seq<Byte>, pos: nat)
    requires e.Valid() && pos < |input|
    requires input[pos] == CR || input[pos] == LF
    ensures Run(e, input, pos) == Accepted(e.text, pos + 1)
  {
  }

  /** Ctrl+C always cancels. */
  lemma CtrlCCancels(e: Editor, input: seq<Byte>, pos: nat)
    requires e.Valid() && pos < |input| && input[pos] == CtrlC
    ensures Run(e, input, pos) == Cancelled(pos + 1)
  {
  }

  /** Ctrl+D on an empty line cancels. */
  lemma CtrlDOnEmptyLineCancels(e: Editor, input: seq<Byte>, pos: nat)
    requires e.Valid() && e.text == [] && pos < |input| && input[pos] == CtrlD
    ensures Run(e, input, pos) == Cancelled(pos + 1)
  {
  }

  /**
   * Running out of input cancels at any point: at a key boundary, after ESC,
   * after ESC '[', and after ESC '[' '3'.
   */
  lemma EndOfInputCancels(e: Editor, input: seq<Byte>, pos: nat)
    requires e.Valid() && pos <= |input|
    requires input[pos..] in {[], [ESC], [ESC, LeftBracket], [ESC, LeftBracket, FinalDelete]}
    ensures Run(e, input, pos) == EndOfInput
  {
    var rest := input[pos..];
    assert |rest| == |input| - pos;
    assert forall j :: 0 <= j < |rest| ==> input[pos + j] == rest[j];
  }

  /**
   * A read that ends by Enter, Ctrl+C or Ctrl+D reads nothing past that key:
   * whatever follows in the input leaves the outcome as it is.
   */
  lemma {:induction false} RunIgnoresLaterInput(e: Editor, input: seq<Byte>, more: seq<Byte>, pos: nat)
    requires e.Valid() && pos <= |input|
    requires !Run(e, input, pos).EndOfInput?
    ensures Run(e, input + more, pos) == Run(e, input, pos)
    decreases |input| - pos
  {
    var d := Decode(input, pos);
    DecodeIgnoresLaterInput(input, more, pos);
    match Apply(e, d.key)
    case Accept(_) =>
    case Cancel =>
    case Continue(e') =>
      RunIgnoresLaterInput(e', input, more, d.next);
  }

  // ---------------------------------------------------------------------------
  // Keys that change nothing

  /** Any byte the loop does not handle is dropped: one byte is read, nothing changes. */
  lemma UnhandledByteIsSkipped(e: Editor, input: seq<Byte>, pos: nat)
    requires e.Valid() && pos < |input|
    requires input[pos] !in {CR, LF, CtrlC, CtrlD, CtrlA, CtrlE, CtrlK, CtrlU, DEL, CtrlH, ESC}
    requires !IsPrintable(input[pos])
    ensures Run(e, input, pos) == Run(e, input, pos + 1)
  {
    DecodeByte(input, pos);
    assert ByteKey(input[pos]) == Undefined;
    Stepped(e, input, pos, Undefined, pos + 1, e);
  }

  /** ESC followed by anything but '[' reads two bytes and changes nothing. */
  lemma EscapeWithoutBracketIsSkipped(e: Editor, input: seq<Byte>, pos: nat)
    requires e.Valid() && pos + 1 < |input|
    requires input[pos] == ESC && input[pos + 1] != LeftBracket
    ensures Run(e, input, pos) == Run(e, input, pos + 2)
  {
    Stepped(e, input, pos, Undefined, pos + 2, e);
  }

  /** Up, Down and unknown sequences ESC '[' x read three bytes and change nothing. */
  lemma IgnoredSequenceIsSkipped(e: Editor, input: seq<Byte>, pos: nat)
    requires e.Valid() && pos + 2 < |input|
    requires input[pos] == ESC && input[pos + 1] == LeftBracket
    requires input[pos + 2] !in {FinalRight, FinalLeft, FinalHome, FinalEnd, FinalDelete}
    ensures Run(e, input, pos) == Run(e, input, pos + 3)
  {
    var k := FinalKey(input[pos + 2]);
    assert k == UpLine || k == DownLine || k == Undefined;
    Stepped(e, input, pos, k, pos + 3, e);
  }

  // ---------------------------------------------------------------------------
  // Keys that edit

  /** A printable byte goes into the line at the cursor, which steps over it. */
  lemma PrintableByteIsInserted(e: Editor, input: seq<Byte>, pos: nat)
    requires e.Valid() && pos < |input| && IsPrintable(input[pos])
    ensures Run(e, input, pos) ==
      Run(Editor(e.text[..e.cursor] + [input[pos]] + e.text[e.cursor..], e.cursor + 1), input, pos + 1)
  {
    DecodeByte(input, pos);
    assert ByteKey(input[pos]) == SelfInsert(input[pos]);
    Stepped(e, input, pos, SelfInsert(input[pos]), pos + 1, InsertChar(e, input[pos]));
  }

  /** Backspace removes the character before the cursor; at the start of the line it does nothing. */
  lemma BackspaceDeletesBeforeCursor(e: Editor, input: seq<Byte>, pos: nat)
    requires e.Valid() && pos < |input| && (input[pos] == DEL || input[pos] == CtrlH)
    ensures Run(e, input, pos) ==
      Run(if e.cursor > 0 then Editor(e.text[..e.cursor - 1] + e.text[e.cursor..], e.cursor - 1) else e,
          input, pos + 1)
  {
    DecodeByte(input, pos);
    assert ByteKey(input[pos]) == BackwardDeleteChar;
    ApplyBackwardDeleteChar(e);
    if e.cursor > 0 {
      var e' := BackDel(e, 1);
      assert e' == Editor(e.text[..e.cursor - 1] + e.text[e.cursor..], e.cursor - 1);
      Stepped(e, input, pos, BackwardDeleteChar, pos + 1, e');
    } else {
      Stepped(e, input, pos, BackwardDeleteChar, pos + 1, e);
    }
  }

  /** Ctrl+K cuts the line at the cursor and leaves the cursor where it is. */
  lemma CtrlKKillsToEnd(e: Editor, input: seq<Byte>, pos: nat)
    requires e.Valid() && pos < |input| && input[pos] == CtrlK
    ensures Run(e, input, pos) == Run(Editor(e.text[..e.cursor], e.cursor), input, pos + 1)
  {
    DecodeByte(input, pos);
    assert ByteKey(input[pos]) == KillLine;
    ApplyKillLine(e);
    if e.cursor == |e.text| {
      assert e.text[..e.cursor] == e.text;
      Stepped(e, input, pos, KillLine, pos + 1, e);
    } else {
      var e' := ForeDel(e, |e.text| - e.cursor);
      assert e'.text == e.text[..e.cursor];
      Stepped(e, input, pos, KillLine, pos + 1, e');
    }
  }

  /** Ctrl+U empties the line and puts the cursor at its start. */
  lemma CtrlUKillsWholeLine(e: Editor, input: seq<Byte>, pos: nat)
    requires e.Valid() && pos < |input| && input[pos] == CtrlU
    ensures Run(e, input, pos) == Run(Empty, input, pos + 1)
  {
    DecodeByte(input, pos);
    assert ByteKey(input[pos]) == KillWholeLine;
    ApplyKillWholeLine(e);
    if |e.text| > 0 {
      var e' := ForeDel(e.(cursor := 0), |e.text|);
      assert e'.text == [];
      Stepped(e, input, pos, KillWholeLine, pos + 1, e');
    } else {
      Stepped(e, input, pos, KillWholeLine, pos + 1, e);
    }
  }

  /** The character at the cursor, if there is one, without the cursor moving. */
  function DeleteAtCursor(e: Editor): (r: Editor)
    requires e.Valid()
    ensures r.Valid() && r.cursor == e.cursor
    ensures e.cursor < |e.text| ==> r.text == e.text[..e.cursor] + e.text[e.cursor + 1..]
    ensures e.cursor == |e.text| ==> r == e
  {
    if e.cursor < |e.text| then ForeDel(e, 1) else e
  }

  /** Ctrl+D on a line that is not empty deletes the character at the cursor, if any. */
  lemma CtrlDDeletesAtCursor(e: Editor, input: seq<Byte>, pos: nat)
    requires e.Valid() && e.text != [] && pos < |input| && input[pos] == CtrlD
    ensures Run(e, input, pos) == Run(DeleteAtCursor(e), input, pos + 1)
  {
    DecodeByte(input, pos);
    assert ByteKey(input[pos]) == DeleteCharOrEof;
    ApplyDeleteCharOrEof(e);
    Stepped(e, input, pos, DeleteCharOrEof, pos + 1, DeleteAtCursor(e));
  }

  /**
   * ESC '[' '3' and any fourth byte deletes like Ctrl+D on a non-empty line,
   * and on an empty line as well (where it changes nothing, and does not cancel).
   */
  lemma DeleteKeyDeletesAtCursor(e: Editor, input: seq<Byte>, pos: nat)
    requires e.Valid() && pos + 3 < |input|
    requires input[pos] == ESC && input[pos + 1] == LeftBracket && input[pos + 2] == FinalDelete
    ensures Run(e, input, pos) == Run(DeleteAtCursor(e), input, pos + 4)
  {
    Stepped(e, input, pos, DeleteChar, pos + 4, DeleteAtCursor(e));
  }

  // ---------------------------------------------------------------------------
  // Keys that move the cursor

  /** Ctrl+A and ESC '[' 'H' put the cursor at the start of the line. */
  lemma HomeMovesToStart(e: Editor, input: seq<Byte>, pos: nat)
    requires e.Valid() && pos < |input|
    requires input[pos] == CtrlA ||
      (pos + 2 < |input| && input[pos] == ESC && input[pos + 1] == LeftBracket && input[pos + 2] == FinalHome)
    ensures Run(e, input, pos) == Run(Editor(e.text, 0), input, if input[pos] == CtrlA then pos + 1 else pos + 3)
  {
    if input[pos] == CtrlA {
      DecodeByte(input, pos);
      assert ByteKey(input[pos]) == BeginningOfLine;
      Stepped(e, input, pos, BeginningOfLine, pos + 1, e.(cursor := 0));
    } else {
      Stepped(e, input, pos, BeginningOfLine, pos + 3, e.(cursor := 0));
    }
  }

  /** Ctrl+E and ESC '[' 'F' put the cursor at the end of the line. */
  lemma EndMovesToEnd(e: Editor, input: seq<Byte>, pos: nat)
    requires e.Valid() && pos < |input|
    requires input[pos] == CtrlE ||
      (pos + 2 < |input| && input[pos] == ESC && input[pos + 1] == LeftBracket && input[pos + 2] == FinalEnd)
    ensures Run(e, input, pos) == Run(Editor(e.text, |e.text|), input, if input[pos] == CtrlE then pos + 1 else pos + 3)
  {
    if input[pos] == CtrlE {
      DecodeByte(input, pos);
      assert ByteKey(input[pos]) == EndOfLine;
      Stepped(e, input, pos, EndOfLine, pos + 1, e.(cursor := |e.text|));
    } else {
      Stepped(e, input, pos, EndOfLine, pos + 3, e.(cursor := |e.text|));
    }
  }

  /** Right arrow moves one place right unless the cursor is at the end. */
  lemma RightArrowMovesRight(e: Editor, input: seq<Byte>, pos: nat)
    requires e.Valid() && pos + 2 < |input|
    requires input[pos] == ESC && input[pos + 1] == LeftBracket && input[pos + 2] == FinalRight
    ensures Run(e, input, pos) == Run(Editor(e.text, Min(e.cursor + 1, |e.text|)), input, pos + 3)
  {
    Stepped(e, input, pos, ForwardChar, pos + 3, Editor(e.text, Min(e.cursor + 1, |e.text|)));
  }

  /** Left arrow moves one place left unless the cursor is at the start. */
  lemma LeftArrowMovesLeft(e: Editor, input: seq<Byte>, pos: nat)
    requires e.Valid() && pos + 2 < |input|
    requires input[pos] == ESC && input[pos + 1] == LeftBracket && input[pos + 2] == FinalLeft
    ensures Run(e, input, pos) == Run(Editor(e.text, if e.cursor > 0 then e.cursor - 1 else 0), input, pos + 3)
  {
    Stepped(e, input, pos, BackwardChar, pos + 3, Editor(e.text, if e.cursor > 0 then e.cursor - 1 else 0));
  }

  // ---------------------------------------------------------------------------
  // Round trips and the worked example

  /** A printable character typed and then erased with Backspace leaves the buffer as it was. */
  lemma TypeThenBackspaceRestores(e: Editor, c: Byte)
    requires e.Valid() && IsPrintable(c)
    ensures Apply(e, SelfInsert(c)) == Continue(InsertChar(e, c))
    ensures Apply(InsertChar(e, c), BackwardDeleteChar) == Continue(e)
  {
    InsertThenBackDelRestores(e, c);
  }

  /** Right arrow then left arrow, away from the end of the line, leaves the buffer as it was. */
  lemma RightThenLeftRestores(e: Editor)
    requires e.Valid() && e.cursor < |e.text|
    ensures Apply(e, ForwardChar).Continue?
    ensures Apply(Apply(e, ForwardChar).next, BackwardChar) == Continue(e)
  {
  }

  /** "echo hi", Left, Left, "X", CR. */
  const EchoHiInput: seq<Byte> :=
    [101, 99, 104, 111, 32, 104, 105, ESC, LeftBracket, FinalLeft, ESC, LeftBracket, FinalLeft, 88, CR]

  /** "echo Xhi": two steps left from the end of "echo hi" is the place before 'h'. */
  const EchoXhi: seq<Byte> := [101, 99, 104, 111, 32, 88, 104, 105]

  /** Typing "echo hi", Left twice, "X" and Enter returns "echo Xhi", having read all 15 bytes. */
  lemma EchoHiExample()
    ensures ReadLine(EchoHiInput) == Accepted(EchoXhi, 15)
  {
    EchoHiSteps(EchoHiInput);
  }

  // The example is proved in three legs over a variable equal to the input,
  // so that the constant is not unfolded all at once.
  lemma EchoHiSteps(s: seq<Byte>)
    requires s == EchoHiInput
    ensures Run(Empty, s, 0) == Accepted(EchoXhi, 15)
  {
    TypedPrefixIsInserted(s, 7);
    EchoHiLeftTwice(s);
    EchoHiInsertX(s);
    EnterAcceptsWholeLine(Editor(EchoXhi, 6), s, 14);
  }

  lemma EchoHiLeftTwice(s: seq<Byte>)
    requires s == EchoHiInput
    ensures Run(Editor(s[..7], 7), s, 7) == Run(Editor(s[..7], 5), s, 13)
  {
    LeftArrowMovesLeft(Editor(s[..7], 7), s, 7);
    LeftArrowMovesLeft(Editor(s[..7], 6), s, 10);
  }

  lemma EchoHiInsertX(s: seq<Byte>)
    requires s == EchoHiInput
    ensures Run(Editor(s[..7], 5), s, 13) == Run(Editor(EchoXhi, 6), s, 14)
  {
    var e := Editor(s[..7], 5);
    PrintableByteIsInserted(e, s, 13);
    assert e.text == [101, 99, 104, 111, 32, 104, 105];
    assert e.text[..5] == [101, 99, 104, 111, 32] && e.text[5..] == [104, 105] && s[13] == 88;
  }

  /** Typing one printable byte after the typed prefix s[..i] extends it by that byte. */
  lemma TypeOneByte(s: seq<Byte>, i: nat)
    requires i < |s| && IsPrintable(s[i])
    ensures Run(Editor(s[..i], i), s, i) == Run(Editor(s[..i + 1], i + 1), s, i + 1)
  {
    var e := Editor(s[..i], i);
    DecodeByte(s, i);
    assert ByteKey(s[i]) == SelfInsert(s[i]);
    assert e.text[..i] == s[..i] && e.text[i..] == [];
    assert s[..i] + [s[i]] == s[..i + 1];
    assert InsertChar(e, s[i]) == Editor(s[..i + 1], i + 1);
    Stepped(e, s, i, SelfInsert(s[i]), i + 1, Editor(s[..i + 1], i + 1));
  }

  /** Typing n printable bytes into an empty buffer leaves exactly them in it, with the cursor at the end. */
  lemma TypedPrefixIsInserted(s: seq<Byte>, n: nat)
    requires n <= |s| && Printable(s[..n])
    ensures Run(Empty, s, 0) == Run(Editor(s[..n], n), s, n)
  {
    assert Empty == Editor(s[..0], 0);
    for i := 0 to n
      invariant Run(Empty, s, 0) == Run(Editor(s[..i], i), s, i)
    {
      assert s[i] == s[..n][i];
      TypeOneByte(s, i);
    }
  }
}
