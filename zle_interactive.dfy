/**
 * The interactive line editor of examples/zle_interactive.c: insert_char and
 * the key-dispatch loop readline_zle, working on the ZLE line buffer.  The
 * process-wide zleline/zlecs/zlell are the fields of the ZleLine object z, and
 * the terminal is the byte sequence input read from position 0 on; getchar
 * returns EOF once every byte has been read.
 */
module ZleInteractive {
  import opened ZleModel
  import opened ZleKeys
  import opened ZleRead
  import opened ZleBuffer

  /** insert_char: open one slot at the cursor, store c there and step over it. */
  method InsertChar(z: ZleLine, c: Byte)
    requires z.Valid()
    modifies z, z.zleline
    ensures z.Valid() && z.State() == ZleModel.InsertChar(old(z.State()), c)
    ensures z.zleline == old(z.zleline) || fresh(z.zleline)
  {
    ghost var before := z.State();
    z.SpaceInline(1);
    var a, cs := z.zleline, z.zlecs;
    ghost var spaced := a[..z.zlell];
    assert spaced[..cs] == before.text[..cs];
    assert spaced[cs + 1..] == before.text[cs..];
    a[cs] := c;
    assert a[..z.zlell] == spaced[cs := c];
    StoredInOpenSlot(before.text, spaced, cs, c);
    z.zlecs := cs + 1;
  }

  /** Storing c in the slot spaceinline opened at cs splices c into the text there. */
  lemma StoredInOpenSlot(text: seq<Byte>, spaced: seq<Byte>, cs: nat, c: Byte)
    requires cs <= |text| && |spaced| == |text| + 1
    requires spaced[..cs] == text[..cs] && spaced[cs + 1..] == text[cs..]
    ensures spaced[cs := c] == text[..cs] + [c] + text[cs..]
  {
    var r := spaced[cs := c];
    forall j | 0 <= j < |r| ensures r[j] == (text[..cs] + [c] + text[cs..])[j] {
      if j < cs {
        assert r[j] == spaced[..cs][j];
      } else if j > cs {
        assert r[j] == spaced[cs + 1..][j - cs - 1];
      }
    }
  }

  /**
   * The deleting cases of readline_zle's switch: Ctrl+D on a non-empty line,
   * and DEL or Ctrl+H.
   */
  method DeleteByte(z: ZleLine, c: Byte)
    requires z.Valid()
    requires c == CtrlD || c == DEL || c == CtrlH
    requires c == CtrlD ==> z.zlell > 0
    modifies z, z.zleline
    ensures z.Valid() && z.zleline == old(z.zleline)
    ensures Apply(old(z.State()), ByteKey(c)) == Continue(z.State())
  {
    if c == CtrlD {
      assert ByteKey(c) == DeleteCharOrEof;
      ApplyDeleteCharOrEof(z.State());
      if z.zlecs < z.zlell {
        z.ForeDel(1);
      }
    } else {
      assert ByteKey(c) == BackwardDeleteChar;
      ApplyBackwardDeleteChar(z.State());
      if z.zlecs > 0 {
        z.BackDel(1);
      }
    }
  }

  /** The killing cases of readline_zle's switch: Ctrl+K and Ctrl+U. */
  method KillByte(z: ZleLine, c: Byte)
    requires z.Valid()
    requires c == CtrlK || c == CtrlU
    modifies z, z.zleline
    ensures z.Valid() && z.zleline == old(z.zleline)
    ensures Apply(old(z.State()), ByteKey(c)) == Continue(z.State())
  {
    if c == CtrlK {
      assert ByteKey(c) == KillLine;
      ApplyKillLine(z.State());
      if z.zlecs < z.zlell {
        z.ForeDel(z.zlell - z.zlecs);
      }
    } else {
      assert ByteKey(c) == KillWholeLine;
      ApplyKillWholeLine(z.State());
      if z.zlell > 0 {
        z.zlecs := 0;
        z.ForeDel(z.zlell);
      }
    }
  }

  /**
   * The single-byte cases of readline_zle's switch, other than Enter, Ctrl+C and
   * Ctrl+D on an empty line, which end the read: each edits the buffer as
   * Apply says the byte's key does.
   */
  method EditByte(z: ZleLine, c: Byte)
    requires z.Valid() && c != ESC
    requires !ByteKey(c).AcceptLine? && !ByteKey(c).SendBreak?
    requires ByteKey(c).DeleteCharOrEof? ==> z.zlell > 0
    modifies z, z.zleline
    ensures z.Valid() && (z.zleline == old(z.zleline) || fresh(z.zleline))
    ensures Apply(old(z.State()), ByteKey(c)) == Continue(z.State())
  {
    if c == CtrlD || c == DEL || c == CtrlH {
      DeleteByte(z, c);
    } else if c == CtrlK || c == CtrlU {
      KillByte(z, c);
    } else if c == CtrlA {
      assert ByteKey(c) == BeginningOfLine;
      z.zlecs := 0;
    } else if c == CtrlE {
      assert ByteKey(c) == EndOfLine;
      z.zlecs := z.zlell;
    } else if IsPrintable(c) {
      assert ByteKey(c) == SelfInsert(c);
      InsertChar(z, c);
    } else {
      assert ByteKey(c) == Undefined;
    }
  }

  /**
   * The ESC case of readline_zle's switch, with input[pos] the ESC already read:
   * read up to three more bytes, stopping with eof when input runs out first,
   * and otherwise edit the buffer as Apply says the decoded key does.
   */
  method ReadEscapeSequence(z: ZleLine, input: seq<Byte>, pos: nat) returns (next: nat, eof: bool)
    requires z.Valid() && pos < |input| && input[pos] == ESC
    modifies z, z.zleline
    ensures z.Valid() && (z.zleline == old(z.zleline) || fresh(z.zleline))
    ensures eof <==> Decode(input, pos).Incomplete?
    ensures eof ==> next == |input|
    ensures !eof ==> next == Decode(input, pos).next
    ensures !eof ==> Apply(old(z.State()), Decode(input, pos).key) == Continue(z.State())
  {
    var i := pos + 1;
    if i == |input| {
      return i, true;
    }
    var c := input[i];
    i := i + 1;
    if c == LeftBracket {
      if i == |input| {
        return i, true;
      }
      c := input[i];
      i := i + 1;
      if c == FinalUp || c == FinalDown {
      } else if c == FinalRight {
        if z.zlecs < z.zlell {
          z.zlecs := z.zlecs + 1;
        }
      } else if c == FinalLeft {
        if z.zlecs > 0 {
          z.zlecs := z.zlecs - 1;
        }
      } else if c == FinalHome {
        z.zlecs := 0;
      } else if c == FinalEnd {
        z.zlecs := z.zlell;
      } else if c == FinalDelete {
        if i == |input| {
          return i, true;
        }
        c := input[i];
        i := i + 1;
        if z.zlecs < z.zlell {
          z.ForeDel(1);
        }
      }
    }
    return i, false;
  }

  /**
   * readline_zle: start from an empty line, read keys until Enter, Ctrl+C,
   * Ctrl+D on an empty line or the end of input, and return the line on Enter
   * and nothing otherwise, together with the position of the first byte not read.
   */
  method ReadLineZle(z: ZleLine, input: seq<Byte>) returns (line: Option<seq<Byte>>, consumed: nat)
    requires z.Valid()
    modifies z, z.zleline
    ensures z.Valid()
    ensures line == Returned(ReadLine(input))
    ensures consumed == if ReadLine(input).EndOfInput? then |input| else ReadLine(input).next
    ensures line.Some? ==> z.State().text == line.value
  {
    z.SizeLine(256);
    z.zlell := 0;
    z.zlecs := 0;
    z.zleline[0] := 0;

    var i := 0;
    var done := false;
    while !done
      invariant z.Valid() && i <= |input|
      invariant z.zleline == old(z.zleline) || fresh(z.zleline)
      invariant !done ==> ReadLine(input) == Run(z.State(), input, i)
      invariant done ==> ReadLine(input) == Accepted(z.State().text, i)
      decreases |input| - i, if done then 0 else 1
    {
      ghost var e := z.State();
      var start := i;
      if i == |input| {
        assert Decode(input, start) == Incomplete;
        return None, i;
      }
      var c := input[i];
      i := i + 1;

      if c == CR || c == LF {
        done := true;
        Stepped(e, input, start, AcceptLine, i, e);
      } else if c == CtrlC || (c == CtrlD && z.zlell == 0) {
        RunStep(e, input, start, ByteKey(c), i);
        return None, i;
      } else if c == ESC {
        var eof;
        i, eof := ReadEscapeSequence(z, input, start);
        if eof {
          return None, i;
        }
        Stepped(e, input, start, Decode(input, start).key, i, z.State());
      } else {
        EditByte(z, c);
        Stepped(e, input, start, ByteKey(c), i, z.State());
      }
    }

    line := Some(z.zleline[..z.zlell]);
    consumed := i;
  }
}
