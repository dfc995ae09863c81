/**
 Register values as sequences of bits, least significant first.  The width of a value
 is its length, so everything holds for every register width.
 */
module Words {

  type Word = seq<bool>

  function And(a: Word, b: Word): (r: Word)
    requires |a| == |b|
    ensures |r| == |a| && forall i :: 0 <= i < |r| ==> r[i] == (a[i] && b[i])
  {
    seq(|a|, i requires 0 <= i < |a| => a[i] && b[i])
  }

  function Or(a: Word, b: Word): (r: Word)
    requires |a| == |b|
    ensures |r| == |a| && forall i :: 0 <= i < |r| ==> r[i] == (a[i] || b[i])
  {
    seq(|a|, i requires 0 <= i < |a| => a[i] || b[i])
  }

  function Not(a: Word): (r: Word)
    ensures |r| == |a| && forall i :: 0 <= i < |r| ==> r[i] == !a[i]
  {
    seq(|a|, i requires 0 <= i < |a| => !a[i])
  }

  function ShiftUp(a: Word, n: nat): (r: Word)
    ensures |r| == |a| && forall i :: 0 <= i < |r| ==> r[i] == (n <= i && a[i - n])
  {
    seq(|a|, i requires 0 <= i < |a| => n <= i && a[i - n])
  }

  function ShiftDown(a: Word, n: nat): (r: Word)
    ensures |r| == |a| && forall i :: 0 <= i < |r| ==> r[i] == (i + n < |a| && a[i + n])
  {
    seq(|a|, i requires 0 <= i < |a| => i + n < |a| && a[i + n])
  }

  function Zero(width: nat): (r: Word)
    ensures |r| == width && forall i :: 0 <= i < |r| ==> !r[i]
  {
    seq(width, _ => false)
  }

  /** The lowest `size` bits set; all bits when the width is smaller. */
  function BitMask(width: nat, size: nat): (r: Word)
    ensures |r| == width && forall i :: 0 <= i < |r| ==> r[i] == (i < size)
  {
    seq(width, i => i < size)
  }

  /** Bits offset to offset + size - 1 of v, moved down to bit 0. */
  function ExtractBits(v: Word, size: nat, offset: nat): (r: Word)
    ensures |r| == |v| && forall i :: 0 <= i < |r| ==> r[i] == (i < size && i + offset < |v| && v[i + offset])
  {
    And(ShiftDown(v, offset), BitMask(|v|, size))
  }

  /** v with bits offset to offset + size - 1 replaced by the lowest bits of rhs. */
  function InsertBits(v: Word, rhs: Word, size: nat, offset: nat): (r: Word)
    requires |rhs| == |v|
    ensures |r| == |v|
    ensures forall i :: 0 <= i < |r| ==> r[i] == if offset <= i < offset + size then rhs[i - offset] else v[i]
  {
    var mask := BitMask(|v|, size);
    Or(And(v, Not(ShiftUp(mask, offset))), ShiftUp(And(rhs, mask), offset))
  }
}
