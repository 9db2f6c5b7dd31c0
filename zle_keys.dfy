/**
 * The keys readline_zle recognises and how it reads them off the input: one
 * byte for a control key or a printable character, two bytes for ESC followed
 * by anything but '[', three bytes for a control sequence ESC '[' x with a
 * single final byte x (the CSI form of ECMA-48, section 5.4), and four for
 * ESC '[' '3' followed by one more byte, which is not checked to be '~'.
 */
module ZleKeys {
  import opened ZleModel

  const CtrlA: Byte := 1
  const CtrlC: Byte := 3
  const CtrlD: Byte := 4
  const CtrlE: Byte := 5
  const CtrlH: Byte := 8
  const LF: Byte := 10
  const CtrlK: Byte := 11
  const CR: Byte := 13
  const CtrlU: Byte := 21
  const ESC: Byte := 27
  const DEL: Byte := 127
  const LeftBracket: Byte := 91   // '['
  const FinalUp: Byte := 65       // 'A'
  const FinalDown: Byte := 66     // 'B'
  const FinalRight: Byte := 67    // 'C'
  const FinalLeft: Byte := 68     // 'D'
  const FinalEnd: Byte := 70      // 'F'
  const FinalHome: Byte := 72     // 'H'
  const FinalDelete: Byte := 51   // '3'

  /** What one key does to the line; named after the zsh widgets they stand for. */
  datatype Key =
    | AcceptLine           // '\r' or '\n'
    | SendBreak            // Ctrl+C
    | DeleteCharOrEof      // Ctrl+D
    | BeginningOfLine      // Ctrl+A, ESC [ H
    | EndOfLine            // Ctrl+E, ESC [ F
    | KillLine             // Ctrl+K
    | KillWholeLine        // Ctrl+U
    | BackwardDeleteChar   // DEL, Ctrl+H
    | ForwardChar          // ESC [ C
    | BackwardChar         // ESC [ D
    | DeleteChar           // ESC [ 3 x
    | UpLine               // ESC [ A, ignored
    | DownLine             // ESC [ B, ignored
    | SelfInsert(c: Byte)  // a printable byte
    | Undefined            // any other byte or sequence, ignored

  /**
   * The result of reading one key at a position: either input ran out before
   * the key was complete, or the key and the position just after it.
   */
  datatype Decoded = Incomplete | Complete(key: Key, next: nat)

  /** The key a single byte other than ESC stands for. */
  function ByteKey(c: Byte): (k: Key)
    requires c != ESC
  {
    if c == CR || c == LF then AcceptLine
    else if c == CtrlC then SendBreak
    else if c == CtrlD then DeleteCharOrEof
    else if c == CtrlA then BeginningOfLine
    else if c == CtrlE then EndOfLine
    else if c == CtrlK then KillLine
    else if c == CtrlU then KillWholeLine
    else if c == DEL || c == CtrlH then BackwardDeleteChar
    else if IsPrintable(c) then SelfInsert(c)
    else Undefined
  }

  /** The key ESC '[' f stands for, for every final byte f but '3'. */
  function FinalKey(f: Byte): (k: Key)
    requires f != FinalDelete
  {
    if f == FinalUp then UpLine
    else if f == FinalDown then DownLine
    else if f == FinalRight then ForwardChar
    else if f == FinalLeft then BackwardChar
    else if f == FinalHome then BeginningOfLine
    else if f == FinalEnd then EndOfLine
    else Undefined
  }

  /** Reads the key that starts at input[pos]. */
  function Decode(input: seq<Byte>, pos: nat): (r: Decoded)
    requires pos <= |input|
    // a key is one to four bytes long, and longer than one byte exactly when it starts with ESC
    ensures r.Complete? ==> pos < r.next <= |input| && r.next <= pos + 4
    ensures r.Complete? ==> (r.next == pos + 1 <==> input[pos] != ESC)
    // input runs out only at its very end or inside an escape sequence
    ensures r.Incomplete? <==>
      pos == |input| ||
      (input[pos] == ESC && (pos + 1 == |input| ||
        (input[pos + 1] == LeftBracket && (pos + 2 == |input| ||
          (input[pos + 2] == FinalDelete && pos + 3 == |input|)))))
    // only printable bytes are ever inserted, and they are inserted as read
    ensures r.Complete? && r.key.SelfInsert? ==> IsPrintable(r.key.c) && input[pos] == r.key.c
    ensures r.Complete? && r.key.AcceptLine? ==> input[pos] == CR || input[pos] == LF
    ensures r.Complete? && r.key.SendBreak? ==> input[pos] == CtrlC
    ensures r.Complete? && r.key.DeleteCharOrEof? ==> input[pos] == CtrlD
  {
    if pos == |input| then Incomplete
    else
      var c := input[pos];
      if c != ESC then Complete(ByteKey(c), pos + 1)
      else
        if pos + 1 == |input| then Incomplete
        else if input[pos + 1] != LeftBracket then Complete(Undefined, pos + 2)
        else if pos + 2 == |input| then Incomplete
        else
          var f := input[pos + 2];
          if f != FinalDelete then Complete(FinalKey(f), pos + 3)
          else if pos + 3 == |input| then Incomplete
          else Complete(DeleteChar, pos + 4)
  }

  /** A byte other than ESC is a key on its own. */
  lemma DecodeByte(input: seq<Byte>, pos: nat)
    requires pos < |input| && input[pos] != ESC
    ensures Decode(input, pos) == Complete(ByteKey(input[pos]), pos + 1)
  {
  }

  /**
   * Reading a key looks no further than the key itself: once a key is complete,
   * bytes appended after the input do not change it.
   */
  lemma DecodeIgnoresLaterInput(input: seq<Byte>, more: seq<Byte>, pos: nat)
    requires pos <= |input|
    requires Decode(input, pos).Complete?
    ensures Decode(input + more, pos) == Decode(input, pos)
  {
    var d := Decode(input, pos);
    assert forall j :: pos <= j < d.next ==> (input + more)[j] == input[j];
  }

  /**
   * The lengths of the escape keys: ESC with anything but '[' is two bytes,
   * the arrows, Home, End and an unknown final byte are three, Delete is four.
   */
  lemma EscapeLengths(input: seq<Byte>, pos: nat)
    requires pos <= |input|
    requires Decode(input, pos).Complete? && input[pos] == ESC
    ensures Decode(input, pos).next == pos + 2 <==> input[pos + 1] != LeftBracket
    ensures Decode(input, pos).next == pos + 4 <==> Decode(input, pos).key.DeleteChar?
    ensures Decode(input, pos).key in {UpLine, DownLine, ForwardChar, BackwardChar} ==>
      Decode(input, pos).next == pos + 3
  {
  }
}
