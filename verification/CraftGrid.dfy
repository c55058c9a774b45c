/**
 Shaped recipes: bounding boxes of name matrices and the shaped check of src/craftdef.cpp.
 A matrix is a row-major list of names and a width.
 */
module CraftGrid {
  import opened Items
  import opened NameLists
  import opened CraftRecipes
  import opened RowMajor

  // ---------------------------------------------------------------- bounds

  datatype Bounds = NoBounds | Bounds(minX: nat, maxX: nat, minY: nat, maxY: nat)

  function Min(a: nat, b: nat): nat { if a < b then a else b }
  function Max(a: nat, b: nat): nat { if a > b then a else b }

  // Bounding box of the non-empty names among the first n.
  function BoundsUpTo(names: seq<string>, w: nat, n: nat): Bounds
    requires w > 0 && n <= |names|
  {
    if n == 0 then NoBounds
    else
      var b, x, y := BoundsUpTo(names, w, n - 1), (n - 1) % w, (n - 1) / w;
      if names[n - 1] == "" then b
      else match b
        case NoBounds => Bounds(x, x, y, y)
        case Bounds(minX, maxX, minY, maxY) => Bounds(Min(x, minX), Max(x, maxX), Min(y, minY), Max(y, maxY))
  }

  // craftGetBounds: the coordinates are stepped along with the list.
  method CraftGetBounds(items: seq<string>, width: nat) returns (b: Bounds)
    requires width > 0
    ensures b == BoundsUpTo(items, width, |items|)
  {
    b := NoBounds;
    var x, y := 0, 0;
    for i := 0 to |items|
      invariant b == BoundsUpTo(items, width, i)
      invariant x == i % width && y == i / width
    {
      if items[i] != "" {
        match b
        case NoBounds =>
          b := Bounds(x, x, y, y);
        case Bounds(minX, maxX, minY, maxY) =>
          if x < minX { b := b.(minX := x); }
          if x > maxX { b := b.(maxX := x); }
          if y < minY { b := b.(minY := y); }
          if y > maxY { b := b.(maxY := y); }
      }
      NextPosition(i, width);
      x := x + 1;
      if x == width {
        x := 0;
        y := y + 1;
      }
    }
  }

  predicate InBox(b: Bounds, x: int, y: int)
    requires b.Bounds?
  {
    b.minX <= x <= b.maxX && b.minY <= y <= b.maxY
  }

  // Some non-empty name among the first n stands in column x, or row y.
  ghost predicate InColumn(names: seq<string>, w: nat, n: nat, x: int)
    requires w > 0 && n <= |names|
  {
    exists i :: 0 <= i < n && names[i] != "" && i % w == x
  }

  ghost predicate InRow(names: seq<string>, w: nat, n: nat, y: int)
    requires w > 0 && n <= |names|
  {
    exists i :: 0 <= i < n && names[i] != "" && i / w == y
  }

  // b holds every non-empty name among the first n, and each of its sides touches one.
  ghost predicate Tight(names: seq<string>, w: nat, n: nat, b: Bounds)
    requires w > 0 && n <= |names| && b.Bounds?
  {
    && (forall i :: 0 <= i < n && names[i] != "" ==> InBox(b, i % w, i / w))
    && InColumn(names, w, n, b.minX) && InColumn(names, w, n, b.maxX)
    && InRow(names, w, n, b.minY) && InRow(names, w, n, b.maxY)
  }

  lemma OneMoreName(names: seq<string>, w: nat, n: nat)
    requires w > 0 && 0 < n <= |names| && names[n - 1] != ""
    ensures InColumn(names, w, n, (n - 1) % w) && InRow(names, w, n, (n - 1) / w)
  {}

  lemma StillThere(names: seq<string>, w: nat, n: nat, x: int)
    requires w > 0 && 0 < n <= |names|
    ensures InColumn(names, w, n - 1, x) ==> InColumn(names, w, n, x)
    ensures InRow(names, w, n - 1, x) ==> InRow(names, w, n, x)
  {}

  lemma {:induction false} BoundsAreTight(names: seq<string>, w: nat, n: nat)
    requires w > 0 && n <= |names|
    ensures var b := BoundsUpTo(names, w, n);
      if b.Bounds? then Tight(names, w, n, b) else forall i :: 0 <= i < n ==> names[i] == ""
  {
    hide InColumn, InRow, Tight;
    if n == 0 {
    } else {
      BoundsAreTight(names, w, n - 1);
      var c := BoundsUpTo(names, w, n - 1);
      if c.Bounds? {
        TightGrows(names, w, n, c, (n - 1) % w, (n - 1) / w);
      } else if names[n - 1] != "" {
        TightStarts(names, w, n);
      }
    }
  }

  lemma TightStarts(names: seq<string>, w: nat, n: nat)
    requires w > 0 && 0 < n <= |names| && names[n - 1] != "" && forall i :: 0 <= i < n - 1 ==> names[i] == ""
    ensures var x, y := (n - 1) % w, (n - 1) / w; Tight(names, w, n, Bounds(x, x, y, y))
  {
    hide InColumn, InRow;
    OneMoreName(names, w, n);
  }

  lemma TightGrows(names: seq<string>, w: nat, n: nat, c: Bounds, x: nat, y: nat)
    requires w > 0 && 0 < n <= |names| && c.Bounds? && x == (n - 1) % w && y == (n - 1) / w
    requires Tight(names, w, n - 1, c)
    ensures Tight(names, w, n, if names[n - 1] == "" then c
      else Bounds(Min(x, c.minX), Max(x, c.maxX), Min(y, c.minY), Max(y, c.maxY)))
  {
    hide InColumn, InRow;
    StillThere(names, w, n, c.minX);
    StillThere(names, w, n, c.maxX);
    StillThere(names, w, n, c.minY);
    StillThere(names, w, n, c.maxY);
    if names[n - 1] != "" {
      OneMoreName(names, w, n);
    }
  }

  // ---------------------------------------------------------------- the shaped check

  // The name at a coordinate of the plane; outside the matrix there is none.
  function Cell(names: seq<string>, w: nat, x: int, y: int): string {
    if 0 <= x < w && 0 <= y && 0 <= y * w + x < |names| then names[y * w + x] else ""
  }

  // How many cells the last row lacks.
  function Missing(n: nat, w: nat): nat
    requires w > 0
  {
    if n % w == 0 then 0 else w - n % w
  }

  function Blanks(k: nat): (r: seq<string>)
    ensures |r| == k && forall i :: 0 <= i < k ==> r[i] == ""
  {
    seq(k, _ => "")
  }

  function Pad(names: seq<string>, w: nat): seq<string>
    requires w > 0
  {
    names + Blanks(Missing(|names|, w))
  }

  lemma {:induction false} KeepBlanks(k: nat)
    ensures Keep(Blanks(k), IsNonEmpty) == []
  {
    if k == 0 {
    } else {
      assert Blanks(k)[1..] == Blanks(k - 1);
      KeepBlanks(k - 1);
    }
  }

  lemma PadFills(n: nat, w: nat)
    requires w > 0
    ensures (n + Missing(n, w)) % w == 0 && Missing(n, w) < w
  {
    assert n == (n / w) * w + n % w;
    if n % w != 0 {
      assert (n / w + 1) * w == (n / w) * w + w;
      DivModUnique(0, n / w + 1, w);
    }
  }

  // Padding completes the last row and adds no item.
  lemma PadIsWhole(names: seq<string>, w: nat)
    requires w > 0
    ensures |Pad(names, w)| % w == 0
    ensures Keep(Pad(names, w), IsNonEmpty) == Keep(names, IsNonEmpty)
  {
    hide Keep, Missing;
    PadFills(|names|, w);
    KeepAppend(names, Blanks(Missing(|names|, w)), IsNonEmpty);
    KeepBlanks(Missing(|names|, w));
  }

  // The names x columns and y rows into the two boxes.
  predicate CellsMatch(inp: seq<string>, iw: nat, bi: Bounds, rec: seq<string>, rw: nat, br: Bounds,
                       idef: ItemDefManager, x: int, y: int)
    requires bi.Bounds? && br.Bounds?
  {
    Matches(Cell(inp, iw, bi.minX + x, bi.minY + y), Cell(rec, rw, br.minX + x, br.minY + y), idef)
  }

  // The names of two equally large boxes match cell by cell.
  ghost predicate BoxesMatch(inp: seq<string>, iw: nat, bi: Bounds, rec: seq<string>, rw: nat, br: Bounds, idef: ItemDefManager)
    requires bi.Bounds? && br.Bounds?
  {
    && bi.maxX - bi.minX == br.maxX - br.minX
    && bi.maxY - bi.minY == br.maxY - br.minY
    && forall x, y :: 0 <= x <= br.maxX - br.minX && 0 <= y <= br.maxY - br.minY ==>
         CellsMatch(inp, iw, bi, rec, rw, br, idef, x, y)
  }

  ghost predicate ShapedMatches(inp: seq<string>, iw: nat, rec: seq<string>, rw: nat, idef: ItemDefManager)
    requires iw > 0 && rw > 0
  {
    var bi, br := BoundsUpTo(inp, iw, |inp|), BoundsUpTo(rec, rw, |rec|);
    bi.Bounds? && br.Bounds? && BoxesMatch(inp, iw, bi, rec, rw, br, idef)
  }

  function ItemNames(items: seq<ItemStack>): (r: seq<string>)
    ensures |r| == |items| && forall i :: 0 <= i < |r| ==> r[i] == items[i].name
  {
    seq(|items|, i requires 0 <= i < |items| => items[i].name)
  }

  method PadToWidth(names0: seq<string>, w: nat) returns (names: seq<string>)
    requires w > 0
    ensures names == Pad(names0, w)
  {
    names := names0;
    ghost var k := 0;
    while |names| % w != 0
      invariant names == names0 + Blanks(k)
      invariant k + Missing(|names|, w) == Missing(|names0|, w)
      decreases Missing(|names|, w)
    {
      NextPosition(|names|, w);
      names := names + [""];
      k := k + 1;
    }
  }

  // A cell of a tight box of a matrix of whole rows lies inside the matrix.
  lemma BoxInMatrix(names: seq<string>, w: nat, b: Bounds, x: nat, y: nat)
    requires w > 0 && |names| % w == 0 && b.Bounds? && Tight(names, w, |names|, b)
    requires InBox(b, x, y)
    ensures x < w && 0 <= y * w + x < |names|
  {
    assert InColumn(names, w, |names|, b.maxX) && InRow(names, w, |names|, b.maxY);
    var j :| 0 <= j < |names| && names[j] != "" && j / w == b.maxY;
    RowFits(|names|, w, j, x, y);
  }

  // The comparison loop over two equally large boxes.
  method CompareBoxes(inpNames: seq<string>, inpWidth: nat, bi: Bounds, recNames: seq<string>, recWidth: nat, br: Bounds,
                      idef: ItemDefManager) returns (ok: bool)
    requires inpWidth > 0 && |inpNames| % inpWidth == 0 && bi.Bounds? && Tight(inpNames, inpWidth, |inpNames|, bi)
    requires recWidth > 0 && |recNames| % recWidth == 0 && br.Bounds? && Tight(recNames, recWidth, |recNames|, br)
    requires bi.minX <= bi.maxX && bi.minY <= bi.maxY
    requires bi.maxX - bi.minX == br.maxX - br.minX && bi.maxY - bi.minY == br.maxY - br.minY
    ensures ok <==> BoxesMatch(inpNames, inpWidth, bi, recNames, recWidth, br, idef)
  {
    hide Tight, Matches;
    var w := bi.maxX - bi.minX + 1;
    var h := bi.maxY - bi.minY + 1;
    for y := 0 to h
      invariant forall x', y' :: 0 <= x' < w && 0 <= y' < y ==>
        CellsMatch(inpNames, inpWidth, bi, recNames, recWidth, br, idef, x', y')
    {
      var inpY := (bi.minY + y) * inpWidth;
      var recY := (br.minY + y) * recWidth;
      for x := 0 to w
        invariant forall x', y' :: 0 <= x' < w && 0 <= y' && (y' < y || (y' == y && x' < x)) ==>
          CellsMatch(inpNames, inpWidth, bi, recNames, recWidth, br, idef, x', y')
      {
        var inpX := bi.minX + x;
        var recX := br.minX + x;
        BoxInMatrix(inpNames, inpWidth, bi, inpX, bi.minY + y);
        BoxInMatrix(recNames, recWidth, br, recX, br.minY + y);
        assert inpNames[inpY + inpX] == Cell(inpNames, inpWidth, bi.minX + x, bi.minY + y);
        assert recNames[recY + recX] == Cell(recNames, recWidth, br.minX + x, br.minY + y);
        var matches := InputItemMatchesRecipe(inpNames[inpY + inpX], recNames[recY + recX], idef);
        assert matches == CellsMatch(inpNames, inpWidth, bi, recNames, recWidth, br, idef, x, y);
        if !matches {
          return false;
        }
      }
    }
    ok := true;
  }

  lemma TightIsProper(names: seq<string>, w: nat, b: Bounds)
    requires w > 0 && b.Bounds? && Tight(names, w, |names|, b)
    ensures b.minX <= b.maxX < w && b.minY <= b.maxY
  {}

  /** CraftDefinitionShaped::check. */
  method ShapedCheck(recipeNames: seq<string>, width: nat, input: CraftInput, idef: ItemDefManager) returns (ok: bool)
    ensures ok <==>
      && input.method_ == Normal && input.width > 0 && width > 0
      && ShapedMatches(Pad(ItemNames(input.items), input.width), input.width, Pad(recipeNames, width), width, idef)
  {
    if input.method_ != Normal || input.width == 0 {
      return false;
    }
    hide Tight, Pad;
    var inpNames := PadToWidth(ItemNames(input.items), input.width);
    PadIsWhole(ItemNames(input.items), input.width);
    var bi := CraftGetBounds(inpNames, input.width);
    if bi.NoBounds? || width == 0 {
      return false;
    }
    var recNames := PadToWidth(recipeNames, width);
    PadIsWhole(recipeNames, width);
    var br := CraftGetBounds(recNames, width);
    if br.NoBounds? {
      return false;
    }
    if bi.maxX - bi.minX != br.maxX - br.minX || bi.maxY - bi.minY != br.maxY - br.minY {
      return false;
    }
    BoundsAreTight(inpNames, input.width, |inpNames|);
    BoundsAreTight(recNames, width, |recNames|);
    TightIsProper(inpNames, input.width, bi);
    ok := CompareBoxes(inpNames, input.width, bi, recNames, width, br, idef);
  }

  // ---------------------------------------------------------------- what a shaped match means

  // A blank slot takes only the empty name; any name but that fills it.
  lemma BlankSlot(name: string, idef: ItemDefManager)
    ensures Matches(name, "", idef) <==> name == ""
  {}

  // Shifting the recipe by (dx, dy) puts every slot, blank ones included, on a fitting input cell.
  ghost predicate Translated(inp: seq<string>, iw: nat, rec: seq<string>, rw: nat, idef: ItemDefManager, dx: int, dy: int) {
    && (exists x, y :: Cell(rec, rw, x, y) != "")
    && forall x, y {:trigger Cell(rec, rw, x, y)} :: Matches(Cell(inp, iw, x + dx, y + dy), Cell(rec, rw, x, y), idef)
  }

  // Under the shift the same cells are occupied.
  ghost predicate SameOutline(inp: seq<string>, iw: nat, rec: seq<string>, rw: nat, dx: int, dy: int) {
    forall x, y {:trigger Cell(rec, rw, x, y)} :: Cell(inp, iw, x + dx, y + dy) == "" <==> Cell(rec, rw, x, y) == ""
  }

  // The hand (the empty item name) is a known item and may be in groups. These are the recipes none
  // of whose slots is filled by it.
  ghost predicate SlotsNeedItems(rec: seq<string>, idef: ItemDefManager) {
    forall s :: s in rec && Matches("", s, idef) ==> s == ""
  }

  lemma CellAt(names: seq<string>, w: nat, i: nat)
    requires w > 0 && i < |names|
    ensures Cell(names, w, i % w, i / w) == names[i]
  {
    assert i == (i / w) * w + i % w;
  }

  lemma CellIndex(names: seq<string>, w: nat, x: int, y: int)
    requires w > 0 && Cell(names, w, x, y) != ""
    ensures 0 <= x < w && 0 <= y && 0 <= y * w + x < |names| && names[y * w + x] == Cell(names, w, x, y)
    ensures (y * w + x) % w == x && (y * w + x) / w == y
  {
    DivModUnique(x, y, w);
  }

  // Tightness, said of cells.
  ghost predicate TightCells(names: seq<string>, w: nat, b: Bounds)
    requires b.Bounds?
  {
    && (forall x, y {:trigger Cell(names, w, x, y)} :: Cell(names, w, x, y) != "" ==> InBox(b, x, y))
    && (exists y :: Cell(names, w, b.minX, y) != "") && (exists y :: Cell(names, w, b.maxX, y) != "")
    && (exists x :: Cell(names, w, x, b.minY) != "") && (exists x :: Cell(names, w, x, b.maxY) != "")
  }

  lemma BoxAsCells(names: seq<string>, w: nat)
    requires w > 0
    ensures var b := BoundsUpTo(names, w, |names|);
      if b.Bounds? then TightCells(names, w, b) else forall x, y :: Cell(names, w, x, y) == ""
  {
    var b := BoundsUpTo(names, w, |names|);
    BoundsAreTight(names, w, |names|);
    forall x, y | Cell(names, w, x, y) != "" ensures b.Bounds? && InBox(b, x, y) {
      CellIndex(names, w, x, y);
    }
    if b.Bounds? {
      var i0 :| 0 <= i0 < |names| && names[i0] != "" && i0 % w == b.minX;
      var i1 :| 0 <= i1 < |names| && names[i1] != "" && i1 % w == b.maxX;
      var i2 :| 0 <= i2 < |names| && names[i2] != "" && i2 / w == b.minY;
      var i3 :| 0 <= i3 < |names| && names[i3] != "" && i3 / w == b.maxY;
      CellAt(names, w, i0);
      CellAt(names, w, i1);
      CellAt(names, w, i2);
      CellAt(names, w, i3);
    }
  }

  lemma TightCellsUnique(names: seq<string>, w: nat, b: Bounds, c: Bounds)
    requires b.Bounds? && c.Bounds? && TightCells(names, w, b) && TightCells(names, w, c)
    ensures b == c
  {}

  // The input's bounding box is the recipe's, shifted.
  predicate SameBox(inp: seq<string>, iw: nat, rec: seq<string>, rw: nat, dx: int, dy: int)
    requires iw > 0 && rw > 0
  {
    var bi, br := BoundsUpTo(inp, iw, |inp|), BoundsUpTo(rec, rw, |rec|);
    && bi.Bounds? && br.Bounds?
    && bi.minX == br.minX + dx && bi.maxX == br.maxX + dx && bi.minY == br.minY + dy && bi.maxY == br.maxY + dy
  }

  /**
   A shaped recipe accepts exactly the inputs that are a translate of it with the same bounding box. If
   none of its slots is filled by the empty name, the box need not be mentioned.
   */
  lemma ShapedIsTranslation(inp: seq<string>, iw: nat, rec: seq<string>, rw: nat, idef: ItemDefManager)
    requires iw > 0 && rw > 0
    ensures ShapedMatches(inp, iw, rec, rw, idef) <==>
      exists dx, dy :: Translated(inp, iw, rec, rw, idef, dx, dy) && SameBox(inp, iw, rec, rw, dx, dy)
    ensures SlotsNeedItems(rec, idef) ==>
      (ShapedMatches(inp, iw, rec, rw, idef) <==> exists dx, dy :: Translated(inp, iw, rec, rw, idef, dx, dy))
  {
    BoxAsCells(inp, iw);
    BoxAsCells(rec, rw);
    if ShapedMatches(inp, iw, rec, rw, idef) {
      var dx, dy := BoxesGiveTranslation(inp, iw, rec, rw, idef);
    }
    if dx, dy :| Translated(inp, iw, rec, rw, idef, dx, dy) && SameBox(inp, iw, rec, rw, dx, dy) {
      ShiftedBoxesMatch(inp, iw, rec, rw, idef, dx, dy);
    }
    if SlotsNeedItems(rec, idef) {
      if dx, dy :| Translated(inp, iw, rec, rw, idef, dx, dy) {
        NeededItemsOutline(inp, iw, rec, rw, idef, dx, dy);
        OutlineGivesBox(inp, iw, rec, rw, dx, dy);
        ShiftedBoxesMatch(inp, iw, rec, rw, idef, dx, dy);
      }
    }
  }

  lemma BoxesGiveTranslation(inp: seq<string>, iw: nat, rec: seq<string>, rw: nat, idef: ItemDefManager)
    returns (dx: int, dy: int)
    requires iw > 0 && rw > 0 && ShapedMatches(inp, iw, rec, rw, idef)
    ensures Translated(inp, iw, rec, rw, idef, dx, dy) && SameBox(inp, iw, rec, rw, dx, dy)
  {
    hide Matches, Cell, BoundsUpTo;
    BoxAsCells(inp, iw);
    BoxAsCells(rec, rw);
    var bi, br := BoundsUpTo(inp, iw, |inp|), BoundsUpTo(rec, rw, |rec|);
    dx, dy := bi.minX - br.minX, bi.minY - br.minY;
    forall x, y {:trigger Cell(rec, rw, x, y)}
      ensures Matches(Cell(inp, iw, x + dx, y + dy), Cell(rec, rw, x, y), idef)
    {
      if InBox(br, x, y) {
        assert CellsMatch(inp, iw, bi, rec, rw, br, idef, x - br.minX, y - br.minY);
        assert bi.minX + (x - br.minX) == x + dx && bi.minY + (y - br.minY) == y + dy;
        assert br.minX + (x - br.minX) == x && br.minY + (y - br.minY) == y;
      } else {
        assert Cell(rec, rw, x, y) == "" && Cell(inp, iw, x + dx, y + dy) == "";
        BlankSlot("", idef);
      }
    }
  }

  lemma ShiftedBoxesMatch(inp: seq<string>, iw: nat, rec: seq<string>, rw: nat, idef: ItemDefManager, dx: int, dy: int)
    requires iw > 0 && rw > 0 && Translated(inp, iw, rec, rw, idef, dx, dy) && SameBox(inp, iw, rec, rw, dx, dy)
    ensures ShapedMatches(inp, iw, rec, rw, idef)
  {
    hide Cell, Matches, BoundsUpTo;
    var bi, br := BoundsUpTo(inp, iw, |inp|), BoundsUpTo(rec, rw, |rec|);
    forall x, y | 0 <= x <= br.maxX - br.minX && 0 <= y <= br.maxY - br.minY
      ensures CellsMatch(inp, iw, bi, rec, rw, br, idef, x, y)
    {
      assert Matches(Cell(inp, iw, br.minX + x + dx, br.minY + y + dy), Cell(rec, rw, br.minX + x, br.minY + y), idef);
      assert br.minX + x + dx == bi.minX + x && br.minY + y + dy == bi.minY + y;
    }
  }

  // Slots that need items are occupied under a translation, and blank ones are not.
  lemma NeededItemsOutline(inp: seq<string>, iw: nat, rec: seq<string>, rw: nat, idef: ItemDefManager, dx: int, dy: int)
    requires rw > 0 && SlotsNeedItems(rec, idef) && Translated(inp, iw, rec, rw, idef, dx, dy)
    ensures SameOutline(inp, iw, rec, rw, dx, dy)
  {
    hide Matches;
    forall x, y {:trigger Cell(rec, rw, x, y)}
      ensures Cell(inp, iw, x + dx, y + dy) == "" <==> Cell(rec, rw, x, y) == ""
    {
      BlankSlot(Cell(inp, iw, x + dx, y + dy), idef);
      assert Matches(Cell(inp, iw, x + dx, y + dy), Cell(rec, rw, x, y), idef);
    }
  }

  lemma OutlineGivesBox(inp: seq<string>, iw: nat, rec: seq<string>, rw: nat, dx: int, dy: int)
    requires iw > 0 && rw > 0 && SameOutline(inp, iw, rec, rw, dx, dy) && exists x, y :: Cell(rec, rw, x, y) != ""
    ensures SameBox(inp, iw, rec, rw, dx, dy)
  {
    hide Cell, BoundsUpTo, TightCells;
    BoxAsCells(inp, iw);
    BoxAsCells(rec, rw);
    var bi, br := BoundsUpTo(inp, iw, |inp|), BoundsUpTo(rec, rw, |rec|);
    var x0, y0 :| Cell(rec, rw, x0, y0) != "";
    assert Cell(inp, iw, x0 + dx, y0 + dy) != "";
    ShiftedBox(inp, iw, rec, rw, br, dx, dy);
    TightCellsUnique(inp, iw, bi, Bounds(br.minX + dx, br.maxX + dx, br.minY + dy, br.maxY + dy));
  }

  // The recipe's box, shifted, is the input's box.
  lemma ShiftedBox(inp: seq<string>, iw: nat, rec: seq<string>, rw: nat, br: Bounds, dx: int, dy: int)
    requires iw > 0 && SameOutline(inp, iw, rec, rw, dx, dy)
    requires br.Bounds? && TightCells(rec, rw, br)
    ensures br.minX + dx >= 0 && br.maxX + dx >= 0 && br.minY + dy >= 0 && br.maxY + dy >= 0
    ensures TightCells(inp, iw, Bounds(br.minX + dx, br.maxX + dx, br.minY + dy, br.maxY + dy))
  {
    hide Cell;
    var y0 :| Cell(rec, rw, br.minX, y0) != "";
    var y1 :| Cell(rec, rw, br.maxX, y1) != "";
    var x2 :| Cell(rec, rw, x2, br.minY) != "";
    var x3 :| Cell(rec, rw, x3, br.maxY) != "";
    CellIndex(inp, iw, br.minX + dx, y0 + dy);
    CellIndex(inp, iw, br.maxX + dx, y1 + dy);
    CellIndex(inp, iw, x2 + dx, br.minY + dy);
    CellIndex(inp, iw, x3 + dx, br.maxY + dy);
    var b := Bounds(br.minX + dx, br.maxX + dx, br.minY + dy, br.maxY + dy);
    forall x, y {:trigger Cell(inp, iw, x, y)} | Cell(inp, iw, x, y) != "" ensures InBox(b, x, y) {
      assert x - dx + dx == x && y - dy + dy == y;
      assert Cell(rec, rw, x - dx, y - dy) != "";
    }
  }

  // ---------------------------------------------------------------- a shaped match, name by name

  // The non-empty names of the two matrices, in reading order, match one by one.
  ghost predicate MatchInOrder(inp: seq<string>, rec: seq<string>, idef: ItemDefManager) {
    |inp| == |rec| && forall k :: 0 <= k < |inp| ==> Matches(inp[k], rec[k], idef)
  }

  lemma KeepOne(x: string)
    ensures Keep([x], IsNonEmpty) == if x == "" then [] else [x]
  {
    assert [x][1..] == [];
  }

  lemma KeepSnoc(s: seq<string>)
    requires s != []
    ensures var last := s[|s| - 1];
      Keep(s, IsNonEmpty) == Keep(s[..|s| - 1], IsNonEmpty) + if last == "" then [] else [last]
  {
    hide Keep;
    var init, last := s[..|s| - 1], s[|s| - 1];
    assert s == init + [last];
    KeepAppend(init, [last], IsNonEmpty);
    KeepOne(last);
  }

  // phi maps the occupied slots increasingly onto the occupied cells, each to a fitting one.
  ghost predicate PairsUp(inp: seq<string>, rec: seq<string>, phi: seq<int>, idef: ItemDefManager) {
    && |phi| == |rec|
    && (forall i :: 0 <= i < |rec| && rec[i] != "" ==>
          0 <= phi[i] < |inp| && inp[phi[i]] != "" && Matches(inp[phi[i]], rec[i], idef))
    && (forall i, j :: 0 <= i < j < |rec| && rec[i] != "" && rec[j] != "" ==> phi[i] < phi[j])
    && (forall j :: 0 <= j < |inp| && inp[j] != "" ==> Hit(rec, phi, j))
  }

  ghost predicate Hit(rec: seq<string>, phi: seq<int>, j: int)
    requires |phi| == |rec|
  {
    exists i :: 0 <= i < |rec| && rec[i] != "" && phi[i] == j
  }

  lemma WithoutBlankSlot(inp: seq<string>, rec: seq<string>, phi: seq<int>, idef: ItemDefManager)
    requires PairsUp(inp, rec, phi, idef) && rec != [] && rec[|rec| - 1] == ""
    ensures PairsUp(inp, rec[..|rec| - 1], phi[..|rec| - 1], idef)
  {
    hide Matches;
    var n := |rec| - 1;
    forall j | 0 <= j < |inp| && inp[j] != "" ensures Hit(rec[..n], phi[..n], j) {
      assert Hit(rec, phi, j);
    }
  }

  lemma WithoutLastPair(inp: seq<string>, rec: seq<string>, phi: seq<int>, idef: ItemDefManager)
    requires PairsUp(inp, rec, phi, idef) && rec != [] && rec[|rec| - 1] != "" && inp != [] && inp[|inp| - 1] != ""
    ensures PairsUp(inp[..|inp| - 1], rec[..|rec| - 1], phi[..|rec| - 1], idef)
    ensures Matches(inp[|inp| - 1], rec[|rec| - 1], idef)
  {
    hide Matches;
    var n, m := |rec| - 1, |inp| - 1;
    assert Hit(rec, phi, m);
    assert phi[n] == m;
    forall j | 0 <= j < m && inp[j] != "" ensures Hit(rec[..n], phi[..n], j) {
      assert Hit(rec, phi, j);
    }
  }

  lemma WithoutBlankCell(inp: seq<string>, rec: seq<string>, phi: seq<int>, idef: ItemDefManager)
    requires PairsUp(inp, rec, phi, idef) && inp != [] && inp[|inp| - 1] == ""
    ensures PairsUp(inp[..|inp| - 1], rec, phi, idef)
  {
    hide Matches, Hit;
  }

  lemma {:induction false} KeepPairs(inp: seq<string>, rec: seq<string>, phi: seq<int>, idef: ItemDefManager)
    requires PairsUp(inp, rec, phi, idef) && |phi| == |rec|
    ensures MatchInOrder(Keep(inp, IsNonEmpty), Keep(rec, IsNonEmpty), idef)
    decreases |inp| + |rec|
  {
    hide Matches, Keep, PairsUp;
    var n, m := |rec|, |inp|;
    if n > 0 && rec[n - 1] == "" {
      KeepSnoc(rec);
      WithoutBlankSlot(inp, rec, phi, idef);
      KeepPairs(inp, rec[..n - 1], phi[..n - 1], idef);
    } else if m > 0 && inp[m - 1] == "" {
      KeepSnoc(inp);
      WithoutBlankCell(inp, rec, phi, idef);
      KeepPairs(inp[..m - 1], rec, phi, idef);
    } else if n > 0 && m > 0 {
      KeepSnoc(rec);
      KeepSnoc(inp);
      WithoutLastPair(inp, rec, phi, idef);
      KeepPairs(inp[..m - 1], rec[..n - 1], phi[..n - 1], idef);
    } else {
      NothingLeft(inp, rec, phi, idef);
    }
  }

  lemma NothingLeft(inp: seq<string>, rec: seq<string>, phi: seq<int>, idef: ItemDefManager)
    requires PairsUp(inp, rec, phi, idef)
    requires rec != [] ==> rec[|rec| - 1] != ""
    requires inp != [] ==> inp[|inp| - 1] != ""
    ensures inp == [] <==> rec == []
  {
    if inp != [] {
      assert Hit(rec, phi, |inp| - 1);
    }
  }

  // Where slot i lands.
  function Landing(i: nat, rw: nat, iw: nat, dx: int, dy: int): int
    requires rw > 0
  {
    (i / rw + dy) * iw + (i % rw + dx)
  }

  lemma LandingFits(inp: seq<string>, iw: nat, rec: seq<string>, rw: nat, idef: ItemDefManager, dx: int, dy: int, i: nat)
    requires iw > 0 && rw > 0 && Translated(inp, iw, rec, rw, idef, dx, dy) && SameOutline(inp, iw, rec, rw, dx, dy)
    requires i < |rec| && rec[i] != ""
    ensures var j := Landing(i, rw, iw, dx, dy);
      0 <= j < |inp| && inp[j] != "" && Matches(inp[j], rec[i], idef)
    ensures 0 <= i % rw + dx < iw && 0 <= i / rw + dy
  {
    hide Matches, Cell;
    CellAt(rec, rw, i);
    CellIndex(inp, iw, i % rw + dx, i / rw + dy);
  }

  lemma LandingIncreases(rw: nat, iw: nat, dx: int, dy: int, i: nat, j: nat)
    requires rw > 0 && i < j
    requires 0 <= i % rw + dx < iw && 0 <= i / rw + dy && 0 <= j % rw + dx < iw && 0 <= j / rw + dy
    ensures Landing(i, rw, iw, dx, dy) < Landing(j, rw, iw, dx, dy)
  {
    assert i == (i / rw) * rw + i % rw && j == (j / rw) * rw + j % rw;
    MulMono(j / rw + 1, i / rw, rw);
    assert (j / rw + 1) * rw == (j / rw) * rw + rw;
    RowMajorLess(i % rw + dx, i / rw + dy, j % rw + dx, j / rw + dy, iw);
  }

  lemma LandingOnto(inp: seq<string>, iw: nat, rec: seq<string>, rw: nat, dx: int, dy: int, j: nat) returns (i: nat)
    requires iw > 0 && rw > 0 && SameOutline(inp, iw, rec, rw, dx, dy)
    requires j < |inp| && inp[j] != ""
    ensures i < |rec| && rec[i] != "" && Landing(i, rw, iw, dx, dy) == j
  {
    hide Cell;
    var x, y := j % iw - dx, j / iw - dy;
    CellAt(inp, iw, j);
    assert x + dx == j % iw && y + dy == j / iw;
    assert Cell(rec, rw, x, y) != "";
    CellIndex(rec, rw, x, y);
    i := y * rw + x;
    assert j == (j / iw) * iw + j % iw;
  }

  // Every slot that the empty name would fill is the only one on some side of the recipe's bounding box, so
  // that an input with the same box has to fill it.
  ghost predicate NoLooseSlot(rec: seq<string>, rw: nat, idef: ItemDefManager)
    requires rw > 0
  {
    forall i {:trigger rec[i]} :: 0 <= i < |rec| && rec[i] != "" && Matches("", rec[i], idef) ==>
      BoundsUpTo(rec[i := ""], rw, |rec|) != BoundsUpTo(rec, rw, |rec|)
  }

  lemma NoLooseSlotOutline(inp: seq<string>, iw: nat, rec: seq<string>, rw: nat, idef: ItemDefManager, dx: int, dy: int)
    requires iw > 0 && rw > 0 && NoLooseSlot(rec, rw, idef)
    requires Translated(inp, iw, rec, rw, idef, dx, dy) && SameBox(inp, iw, rec, rw, dx, dy)
    ensures SameOutline(inp, iw, rec, rw, dx, dy)
  {
    hide Matches, BoundsUpTo, Cell;
    forall x, y {:trigger Cell(rec, rw, x, y)}
      ensures Cell(inp, iw, x + dx, y + dy) == "" <==> Cell(rec, rw, x, y) == ""
    {
      BlankSlot(Cell(inp, iw, x + dx, y + dy), idef);
      assert Matches(Cell(inp, iw, x + dx, y + dy), Cell(rec, rw, x, y), idef);
      if Cell(inp, iw, x + dx, y + dy) == "" && Cell(rec, rw, x, y) != "" {
        CellIndex(rec, rw, x, y);
        UnfilledIsLoose(inp, iw, rec, rw, idef, dx, dy, y * rw + x);
      }
    }
  }

  // Taking away one name changes one cell.
  lemma CellWithout(names: seq<string>, w: nat, i: nat, x: int, y: int)
    requires w > 0 && i < |names|
    ensures Cell(names[i := ""], w, x, y) == if x == i % w && y == i / w then "" else Cell(names, w, x, y)
  {
    assert i == (i / w) * w + i % w;
    if 0 <= x < w && 0 <= y && y * w + x == i {
      DivModUnique(x, y, w);
    }
  }

  // An input cell that is filled stands on a slot.
  lemma FilledSlot(inp: seq<string>, iw: nat, rec: seq<string>, rw: nat, idef: ItemDefManager, dx: int, dy: int, x: int, y: int)
    requires Translated(inp, iw, rec, rw, idef, dx, dy) && Cell(inp, iw, x, y) != ""
    ensures Cell(rec, rw, x - dx, y - dy) != ""
  {
    hide Cell, Matches;
    assert x - dx + dx == x && y - dy + dy == y;
    assert Matches(Cell(inp, iw, x, y), Cell(rec, rw, x - dx, y - dy), idef);
    BlankSlot(Cell(inp, iw, x, y), idef);
  }

  // A tight box moves along, if nothing sticks out there.
  lemma SidesMove(inp: seq<string>, iw: nat, bi: Bounds, less: seq<string>, rw: nat, br: Bounds, dx: int, dy: int)
    requires bi.Bounds? && br.Bounds? && TightCells(inp, iw, bi)
    requires bi.minX == br.minX + dx && bi.maxX == br.maxX + dx && bi.minY == br.minY + dy && bi.maxY == br.maxY + dy
    requires forall x, y {:trigger Cell(less, rw, x, y)} :: Cell(less, rw, x, y) != "" ==> InBox(br, x, y)
    requires forall x, y {:trigger Cell(inp, iw, x, y)} :: Cell(inp, iw, x, y) != "" ==> Cell(less, rw, x - dx, y - dy) != ""
    ensures TightCells(less, rw, br)
  {
    hide Cell;
    var y0 :| Cell(inp, iw, bi.minX, y0) != "";
    var y1 :| Cell(inp, iw, bi.maxX, y1) != "";
    var x2 :| Cell(inp, iw, x2, bi.minY) != "";
    var x3 :| Cell(inp, iw, x3, bi.maxY) != "";
    assert Cell(less, rw, br.minX, y0 - dy) != "" && Cell(less, rw, br.maxX, y1 - dy) != "";
    assert Cell(less, rw, x2 - dx, br.minY) != "" && Cell(less, rw, x3 - dx, br.maxY) != "";
  }

  // An input with the recipe's box that leaves slot i empty touches every side without it.
  lemma UnfilledIsLoose(inp: seq<string>, iw: nat, rec: seq<string>, rw: nat, idef: ItemDefManager, dx: int, dy: int, i: nat)
    requires iw > 0 && rw > 0 && Translated(inp, iw, rec, rw, idef, dx, dy) && SameBox(inp, iw, rec, rw, dx, dy)
    requires i < |rec| && rec[i] != "" && Cell(inp, iw, i % rw + dx, i / rw + dy) == ""
    ensures BoundsUpTo(rec[i := ""], rw, |rec|) == BoundsUpTo(rec, rw, |rec|)
  {
    hide Matches, BoundsUpTo, Translated, Cell;
    var less, br, bi := rec[i := ""], BoundsUpTo(rec, rw, |rec|), BoundsUpTo(inp, iw, |inp|);
    BoxAsCells(inp, iw);
    BoxAsCells(rec, rw);
    BoxAsCells(less, rw);
    forall x, y {:trigger Cell(less, rw, x, y)} | Cell(less, rw, x, y) != "" ensures InBox(br, x, y) {
      CellWithout(rec, rw, i, x, y);
    }
    forall x, y | Cell(inp, iw, x, y) != "" ensures Cell(less, rw, x - dx, y - dy) != "" {
      FilledSlot(inp, iw, rec, rw, idef, dx, dy, x, y);
      CellWithout(rec, rw, i, x - dx, y - dy);
    }
    SidesMove(inp, iw, bi, less, rw, br, dx, dy);
    TightCellsUnique(less, rw, BoundsUpTo(less, rw, |less|), br);
  }

  /**
   A shaped match pairs the non-empty names of input and recipe in reading order, unless an empty cell
   fills a loose slot.
   */
  lemma ShapedMatchesInOrder(inp: seq<string>, iw: nat, rec: seq<string>, rw: nat, idef: ItemDefManager)
    requires iw > 0 && rw > 0 && NoLooseSlot(rec, rw, idef)
    requires ShapedMatches(inp, iw, rec, rw, idef)
    ensures MatchInOrder(Keep(inp, IsNonEmpty), Keep(rec, IsNonEmpty), idef)
  {
    var dx, dy := BoxesGiveTranslation(inp, iw, rec, rw, idef);
    NoLooseSlotOutline(inp, iw, rec, rw, idef, dx, dy);
    hide ShapedMatches, Translated, SameOutline, Matches, Landing;
    var phi := seq(|rec|, i requires 0 <= i < |rec| => Landing(i, rw, iw, dx, dy));
    forall i | 0 <= i < |rec| && rec[i] != ""
      ensures 0 <= phi[i] < |inp| && inp[phi[i]] != "" && Matches(inp[phi[i]], rec[i], idef)
    {
      LandingFits(inp, iw, rec, rw, idef, dx, dy, i);
    }
    forall i, j | 0 <= i < j < |rec| && rec[i] != "" && rec[j] != "" ensures phi[i] < phi[j] {
      LandingFits(inp, iw, rec, rw, idef, dx, dy, i);
      LandingFits(inp, iw, rec, rw, idef, dx, dy, j);
      LandingIncreases(rw, iw, dx, dy, i, j);
    }
    forall j | 0 <= j < |inp| && inp[j] != "" ensures Hit(rec, phi, j) {
      var i := LandingOnto(inp, iw, rec, rw, dx, dy, j);
      assert phi[i] == j;
    }
    KeepPairs(inp, rec, phi, idef);
  }

  // ---------------------------------------------------------------- padding

  // Blank names behind the others change no cell and no bounds.
  lemma {:induction false} BlanksBehind(names: seq<string>, w: nat, k: nat)
    requires w > 0
    ensures var more := names + Blanks(k);
      && BoundsUpTo(more, w, |more|) == BoundsUpTo(names, w, |names|)
      && forall x, y :: Cell(more, w, x, y) == Cell(names, w, x, y)
  {
    var more := names + Blanks(k);
    forall x, y ensures Cell(more, w, x, y) == Cell(names, w, x, y) {
      assert forall i :: |names| <= i < |more| ==> more[i] == "";
    }
    if k == 0 {
      assert more == names;
    } else {
      BlanksBehind(names, w, k - 1);
      BoundsOfFront(more, names + Blanks(k - 1), w, |more| - 1);
    }
  }

  lemma {:induction false} BoundsOfFront(a: seq<string>, b: seq<string>, w: nat, n: nat)
    requires w > 0 && n <= |a| && n <= |b| && a[..n] == b[..n]
    ensures BoundsUpTo(a, w, n) == BoundsUpTo(b, w, n)
  {
    if n == 0 {
    } else {
      assert a[..n - 1] == a[..n][..n - 1] && b[..n - 1] == b[..n][..n - 1];
      assert a[n - 1] == a[..n][n - 1] && b[n - 1] == b[..n][n - 1];
      BoundsOfFront(a, b, w, n - 1);
    }
  }

  /** Padding adds less than a row, completes the last one, and leaves every name in its cell. */
  lemma PadMeaning(names: seq<string>, w: nat)
    requires w > 0
    ensures |Pad(names, w)| % w == 0 && |names| <= |Pad(names, w)| < |names| + w
    ensures forall x, y :: Cell(Pad(names, w), w, x, y) == Cell(names, w, x, y)
    ensures BoundsUpTo(Pad(names, w), w, |Pad(names, w)|) == BoundsUpTo(names, w, |names|)
  {
    hide Missing;
    PadFills(|names|, w);
    BlanksBehind(names, w, Missing(|names|, w));
  }

  /** So the shaped check is about the grids as they are: the input is a translate of the recipe with the same bounds. */
  lemma PaddedIsTranslation(inp: seq<string>, iw: nat, rec: seq<string>, rw: nat, idef: ItemDefManager)
    requires iw > 0 && rw > 0
    ensures ShapedMatches(Pad(inp, iw), iw, Pad(rec, rw), rw, idef) <==>
      exists dx, dy :: Translated(inp, iw, rec, rw, idef, dx, dy) && SameBox(inp, iw, rec, rw, dx, dy)
  {
    hide ShapedMatches, Matches, Pad;
    PadMeaning(inp, iw);
    PadMeaning(rec, rw);
    ShapedIsTranslation(Pad(inp, iw), iw, Pad(rec, rw), rw, idef);
    hide BoundsUpTo, Cell;
    forall dx, dy
      ensures Translated(Pad(inp, iw), iw, Pad(rec, rw), rw, idef, dx, dy) <==> Translated(inp, iw, rec, rw, idef, dx, dy)
      ensures SameBox(Pad(inp, iw), iw, Pad(rec, rw), rw, dx, dy) <==> SameBox(inp, iw, rec, rw, dx, dy)
    {
      SameCells(Pad(inp, iw), inp, iw, Pad(rec, rw), rec, rw, idef, dx, dy);
    }
  }

  lemma SameCells(a: seq<string>, inp: seq<string>, iw: nat, b: seq<string>, rec: seq<string>, rw: nat, idef: ItemDefManager, dx: int, dy: int)
    requires forall x, y :: Cell(a, iw, x, y) == Cell(inp, iw, x, y)
    requires forall x, y :: Cell(b, rw, x, y) == Cell(rec, rw, x, y)
    ensures Translated(a, iw, b, rw, idef, dx, dy) <==> Translated(inp, iw, rec, rw, idef, dx, dy)
  {
    hide Cell, Matches;
    if x, y :| Cell(b, rw, x, y) != "" {
      assert Cell(rec, rw, x, y) != "";
    }
  }
}
