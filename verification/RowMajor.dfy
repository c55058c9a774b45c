/**
 Positions in row-major matrices: index y * w + x for column x of row y.
 */
module RowMajor {

  lemma MulMono(a: int, b: int, w: nat)
    ensures a <= b ==> a * w <= b * w
  {}

  lemma DivModUnique(x: nat, y: nat, w: nat)
    requires x < w
    ensures (y * w + x) / w == y && (y * w + x) % w == x && 0 <= y * w + x
  {
    var n := y * w + x;
    var q := n / w;
    assert n == q * w + n % w;
    assert (q + 1) * w == q * w + w && (y + 1) * w == y * w + w;
    MulMono(q + 1, y, w);
    MulMono(y + 1, q, w);
  }

  // A matrix of whole rows holds all of a row once it holds a name of that row or a later one.
  lemma RowFits(size: nat, w: nat, j: nat, x: nat, y: nat)
    requires x < w && size % w == 0 && j < size && y <= j / w
    ensures y * w + x < size
  {
    var rows, q := size / w, j / w;
    assert size == rows * w && j == q * w + j % w;
    MulMono(rows, q, w);
    MulMono(y + 1, rows, w);
    assert (y + 1) * w == y * w + w;
  }

  lemma NextPosition(i: nat, w: nat)
    requires w > 0
    ensures (i + 1) % w == if i % w + 1 == w then 0 else i % w + 1
    ensures (i + 1) / w == if i % w + 1 == w then i / w + 1 else i / w
  {
    assert i == (i / w) * w + i % w;
    if i % w + 1 == w {
      assert i + 1 == (i / w + 1) * w + 0;
      DivModUnique(0, i / w + 1, w);
    } else {
      DivModUnique(i % w + 1, i / w, w);
    }
  }

  lemma RowMajorLess(x1: nat, y1: nat, x2: nat, y2: nat, w: nat)
    requires x1 < w && x2 < w && (y1 < y2 || (y1 == y2 && x1 < x2))
    ensures y1 * w + x1 < y2 * w + x2
  {
    if y1 < y2 {
      assert (y1 + 1) * w <= y2 * w;
    }
  }

  // The position of column x of row y.
  function Idx(x: nat, y: nat, w: nat): nat {
    y * w + x
  }

  lemma IdxSteps(x: nat, y: nat, w: nat)
    ensures Idx(0, 0, w) == 0
    ensures Idx(x + 1, y, w) == Idx(x, y, w) + 1
    ensures Idx(w, y, w) == Idx(0, y + 1, w)
    ensures Idx(0, y, w) == y * w
  {}

  lemma IdxInside(x: nat, y: nat, w: nat, h: nat)
    requires x < w && y < h
    ensures Idx(x, y, w) < w * h && Idx(x, y, w) < h * w
    ensures Idx(x, y, w) % w == x && Idx(x, y, w) / w == y
  {
    DivModUnique(x, y, w);
    MulMono(y + 1, h, w);
    assert (y + 1) * w == y * w + w;
    assert h * w == w * h;
  }
}
