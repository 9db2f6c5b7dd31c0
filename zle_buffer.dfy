/**
 * The ZLE line buffer as the C code keeps it: the array zleline, whose length
 * is the allocated size linesz, the cursor zlecs and the line length zlell.
 * sizeline, spaceinline, foredel and backdel work in place on that array.
 * sizeline keeps the buffer state, spaceinline keeps the text before the cursor
 * and moves the rest, and foredel and backdel are proved to have the effect the
 * ZleModel functions of the same name describe.
 */
module ZleBuffer {
  import opened ZleModel

  /**
   * Moves a[lo .. hi) ct places right, last unit first, leaving a[.. lo)
   * alone: the data movement of spaceinline.
   */
  method ShiftUp(a: array<Byte>, lo: nat, hi: nat, ct: nat)
    requires lo <= hi && hi + ct <= a.Length
    modifies a
    ensures a[..lo] == old(a[..lo])
    ensures a[lo..lo + ct] == old(a[lo..lo + ct])
    ensures a[lo + ct..hi + ct] == old(a[lo..hi])
    ensures a[hi + ct..] == old(a[hi + ct..])
  {
    ghost var orig := a[..];
    var k := hi;
    while k > lo
      invariant lo <= k <= hi
      invariant forall j :: 0 <= j < k ==> a[j] == orig[j]
      invariant forall j :: lo <= j < lo + ct ==> a[j] == orig[j]
      invariant forall j :: k <= j < hi ==> a[j + ct] == orig[j]
      invariant forall j :: hi + ct <= j < a.Length ==> a[j] == orig[j]
    {
      k := k - 1;
      a[k + ct] := a[k];
    }
    ShiftedUp(a[..], orig, lo, hi, ct);
  }

  /** Cell by cell, a shift right by ct of [lo, hi) is three slice equalities. */
  lemma ShiftedUp(now: seq<Byte>, orig: seq<Byte>, lo: nat, hi: nat, ct: nat)
    requires |now| == |orig| && lo <= hi && hi + ct <= |orig|
    requires forall j :: 0 <= j < lo ==> now[j] == orig[j]
    requires forall j :: lo <= j < lo + ct ==> now[j] == orig[j]
    requires forall j :: lo <= j < hi ==> now[j + ct] == orig[j]
    requires forall j :: hi + ct <= j < |now| ==> now[j] == orig[j]
    ensures now[..lo] == orig[..lo]
    ensures now[lo..lo + ct] == orig[lo..lo + ct]
    ensures now[lo + ct..hi + ct] == orig[lo..hi]
    ensures now[hi + ct..] == orig[hi + ct..]
  {
    assert now[lo + ct..hi + ct] == orig[lo..hi] by {
      forall j | 0 <= j < hi - lo ensures now[lo + ct..hi + ct][j] == orig[lo..hi][j] {
        assert now[lo + ct + j] == orig[lo + j];
      }
    }
  }

  /**
   * Moves a[lo + n .. hi) n places left, first unit first, leaving a[.. lo)
   * alone: the data movement of foredel.
   */
  method ShiftDown(a: array<Byte>, lo: nat, hi: nat, n: nat)
    requires lo + n <= hi <= a.Length
    modifies a
    ensures a[..lo] == old(a[..lo])
    ensures a[lo..hi - n] == old(a[lo + n..hi])
    ensures a[hi - n..] == old(a[hi - n..])
  {
    var k := lo;
    while k + n < hi
      invariant lo <= k <= hi - n
      invariant forall j :: 0 <= j < lo ==> a[j] == old(a[j])
      invariant forall j :: lo <= j < k ==> a[j] == old(a[j + n])
      invariant forall j :: k <= j < a.Length ==> a[j] == old(a[j])
    {
      a[k] := a[k + n];
      k := k + 1;
    }
    ghost var moved := old(a[lo + n..hi]);
    assert a[lo..hi - n] == moved by {
      forall j | 0 <= j < |moved| ensures a[lo..hi - n][j] == moved[j] {
        assert a[lo + j] == old(a[lo + n + j]);
      }
    }
    assert a[hi - n..] == old(a[hi - n..]);
  }

  class ZleLine {
    var zleline: array<Byte>
    var zlecs: nat
    var zlell: nat

    /** 0 <= zlecs <= zlell <= linesz. */
    ghost predicate Valid()
      reads this
    {
      zlecs <= zlell <= zleline.Length
    }

    /** The buffer as a value: the text zleline[0 .. zlell) and the cursor. */
    ghost function State(): (e: Editor)
      reads this, zleline
      requires Valid()
      ensures e.Valid()
    {
      Editor(zleline[..zlell], zlecs)
    }

    constructor ()
      ensures Valid() && State() == Empty && fresh(zleline)
    {
      zleline := new Byte[0];
      zlecs, zlell := 0, 0;
    }

    /**
     * sizeline(sz): make room for at least sz units, keeping the line and the
     * cursor.  A larger array is allocated only when the current one is too small.
     */
    method SizeLine(sz: nat)
      requires Valid()
      modifies this
      ensures Valid() && zleline.Length >= sz
      ensures State() == old(State())
      ensures zleline == old(zleline) || fresh(zleline)
    {
      if zleline.Length < sz {
        var size := if sz < 2 * zleline.Length then 2 * zleline.Length else sz;
        var bigger := new Byte[size];
        forall k | 0 <= k < zlell {
          bigger[k] := zleline[k];
        }
        zleline := bigger;
      }
    }

    /**
     * spaceinline(ct): open ct slots at the cursor.  The text before the cursor
     * stays, the text after it moves ct places right, and the cursor does not move.
     */
    method SpaceInline(ct: nat)
      requires Valid()
      modifies this, zleline
      ensures Valid() && zlecs == old(zlecs) && zlell == old(zlell) + ct
      ensures zleline[..zlecs] == old(zleline[..zlecs])
      ensures zleline[zlecs + ct..zlell] == old(zleline[zlecs..zlell])
      ensures zleline == old(zleline) || fresh(zleline)
    {
      ghost var text := zleline[..zlell];
      SizeLine(zlell + ct);
      assert zleline[..zlell] == text;
      ShiftUp(zleline, zlecs, zlell, ct);
      zlell := zlell + ct;
      assert zleline[..zlecs] == text[..zlecs];
    }

    /** foredel(ct): remove ct units at the cursor (no more than there are). */
    method ForeDel(ct: nat)
      requires Valid()
      modifies this`zlell, zleline
      ensures Valid() && zleline == old(zleline)
      ensures State() == ZleModel.ForeDel(old(State()), ct)
    {
      ghost var text := zleline[..zlell];
      var n := if ct <= zlell - zlecs then ct else zlell - zlecs;
      ShiftDown(zleline, zlecs, zlell, n);
      zlell := zlell - n;
      assert zleline[..zlecs] == text[..zlecs];
      assert zleline[zlecs..zlell] == text[zlecs + n..];
      assert zleline[..zlell] == zleline[..zlecs] + zleline[zlecs..zlell];
    }

    /** backdel(ct): remove ct units before the cursor (no more than there are) and move back over them. */
    method BackDel(ct: nat)
      requires Valid()
      modifies this`zlecs, this`zlell, zleline
      ensures Valid() && zleline == old(zleline)
      ensures State() == ZleModel.BackDel(old(State()), ct)
    {
      var n := if ct <= zlecs then ct else zlecs;
      zlecs := zlecs - n;
      ForeDel(n);
    }
  }
}
