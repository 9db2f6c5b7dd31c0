/**
 * The ZLE line buffer as a value: the text held in zleline[0 .. zlell) and the
 * cursor zlecs.  The buffer primitives the interactive editor calls
 * (spaceinline followed by a store, foredel, backdel) are given here as
 * functions on that value; the class ZleBuffer.ZleLine implements them in
 * place on an array and is proved against these functions.
 */
module ZleModel {

  /** One unit read from the terminal or held in the line (getchar yields 0..255). */
  type Byte = b: int | 0 <= b < 256

  /** The bytes insert_char is ever given: 32 <= c < 127. */
  predicate IsPrintable(b: Byte) {
    32 <= b < 127
  }

  predicate Printable(s: seq<Byte>) {
    forall i :: 0 <= i < |s| ==> IsPrintable(s[i])
  }

  function Min(a: int, b: int): int {
    if a <= b then a else b
  }

  /** The editor state: text is zleline[0 .. zlell), cursor is zlecs. */
  datatype Editor = Editor(text: seq<Byte>, cursor: nat) {
    /** The buffer invariant 0 <= zlecs <= zlell. */
    predicate Valid() {
      cursor <= |text|
    }
  }

  /** The state every read starts from: zlell = zlecs = 0. */
  const Empty: Editor := Editor([], 0)

  /**
   * insert_char: open one slot at the cursor, store c there and step over it.
   * The text before the cursor is kept and the text after it moves one place right.
   */
  function InsertChar(e: Editor, c: Byte): (r: Editor)
    requires e.Valid()
    ensures r.Valid()
    ensures |r.text| == |e.text| + 1 && r.cursor == e.cursor + 1
    ensures forall i :: 0 <= i < e.cursor ==> r.text[i] == e.text[i]
    ensures r.text[e.cursor] == c
    ensures forall i :: e.cursor <= i < |e.text| ==> r.text[i + 1] == e.text[i]
    ensures Printable(e.text) && IsPrintable(c) ==> Printable(r.text)
  {
    Editor(e.text[..e.cursor] + [c] + e.text[e.cursor..], e.cursor + 1)
  }

  /**
   * foredel(n): remove n units at the cursor, clamped to what lies after it;
   * the cursor stays where it is.
   */
  function ForeDel(e: Editor, n: nat): (r: Editor)
    requires e.Valid()
    ensures r.Valid() && r.cursor == e.cursor
    ensures |r.text| == |e.text| - Min(n, |e.text| - e.cursor)
    ensures forall i :: 0 <= i < e.cursor ==> r.text[i] == e.text[i]
    ensures forall i :: e.cursor <= i < |r.text| ==> r.text[i] == e.text[i + Min(n, |e.text| - e.cursor)]
    ensures Printable(e.text) ==> Printable(r.text)
  {
    var ct := Min(n, |e.text| - e.cursor);
    Editor(e.text[..e.cursor] + e.text[e.cursor + ct..], e.cursor)
  }

  /**
   * backdel(n): remove n units before the cursor, clamped to the cursor, and
   * move the cursor back over them.
   */
  function BackDel(e: Editor, n: nat): (r: Editor)
    requires e.Valid()
    ensures r.Valid() && r.cursor == e.cursor - Min(n, e.cursor)
    ensures r.text == e.text[..r.cursor] + e.text[e.cursor..]
    ensures Printable(e.text) ==> Printable(r.text)
  {
    var ct := Min(n, e.cursor);
    var r := ForeDel(Editor(e.text, e.cursor - ct), ct);
    assert r.text == e.text[..e.cursor - ct] + e.text[e.cursor..];
    r
  }

  /** Inserting one character and deleting it again with backdel(1) restores the buffer. */
  lemma InsertThenBackDelRestores(e: Editor, c: Byte)
    requires e.Valid()
    ensures BackDel(InsertChar(e, c), 1) == e
  {
    var i := InsertChar(e, c);
    assert i.text[..e.cursor] == e.text[..e.cursor];
    assert i.text[i.cursor..] == e.text[e.cursor..];
    var r := BackDel(i, 1);
    assert r.cursor == e.cursor;
    assert r.text == e.text[..e.cursor] + e.text[e.cursor..];
    assert e.text[..e.cursor] + e.text[e.cursor..] == e.text;
  }

  /** Deleting forward at the end of the line, or by zero units, changes nothing. */
  lemma ForeDelAtEndIsNoOp(e: Editor, n: nat)
    requires e.Valid()
    requires e.cursor == |e.text| || n == 0
    ensures ForeDel(e, n) == e
  {
    assert e.text[..e.cursor] + e.text[e.cursor..] == e.text;
  }
}
