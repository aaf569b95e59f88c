/**
 The board: a `width` by `height` grid whose outermost ring is wall. Only the
 interior `[1, width-2] x [1, height-2]` is playable.
 */
module Board {
  import opened Geometry

  predicate InInterior(width: int, height: int, p: Pos)
  {
    1 <= p.x <= width - 2 && 1 <= p.y <= height - 2
  }

  predicate AllInterior(width: int, height: int, cells: seq<Pos>)
  {
    forall i :: 0 <= i < |cells| ==> InInterior(width, height, cells[i])
  }

  predicate NoDuplicates(cells: seq<Pos>)
  {
    forall i, j :: 0 <= i < j < |cells| ==> cells[i] != cells[j]
  }

  /** Consecutive segments are one unit step apart. */
  predicate Connected(cells: seq<Pos>)
  {
    forall i :: 0 < i < |cells| ==> Adjacent(cells[i - 1], cells[i])
  }

  /** A cell where food may be placed: inside the walls and not under the snake. */
  predicate Free(width: int, height: int, cells: seq<Pos>, p: Pos)
  {
    InInterior(width, height, p) && p !in cells
  }

  ghost predicate HasFreeCell(width: int, height: int, cells: seq<Pos>)
  {
    exists p :: Free(width, height, cells, p)
  }

  /** Number of playable cells. */
  function InteriorSize(width: int, height: int): int
  {
    (width - 2) * (height - 2)
  }

  /** The cells (1, y) .. (n, y). */
  ghost function Row(y: int, n: nat): (r: set<Pos>)
    ensures forall p :: p in r <==> 1 <= p.x <= n && p.y == y
    ensures |r| == n
  {
    if n == 0 then {}
    else
      var prev := Row(y, n - 1);
      assert Pos(n, y) !in prev;
      prev + {Pos(n, y)}
  }

  /** The cells of `[1, cols] x [1, rows]`. */
  ghost function Rect(cols: nat, rows: nat): (r: set<Pos>)
    ensures forall p :: p in r <==> 1 <= p.x <= cols && 1 <= p.y <= rows
    ensures |r| == cols * rows
  {
    if rows == 0 then {}
    else
      var above := Rect(cols, rows - 1);
      var row := Row(rows, cols);
      assert above * row == {};
      above + row
  }

  ghost function Elems(cells: seq<Pos>): set<Pos>
  {
    set p | p in cells
  }

  /** A sequence has at most as many distinct cells as entries, and exactly as many without duplicates. */
  lemma {:induction false} ElemsCard(cells: seq<Pos>)
    ensures |Elems(cells)| <= |cells|
    ensures NoDuplicates(cells) ==> |Elems(cells)| == |cells|
  {
    if |cells| > 0 {
      var init := cells[..|cells| - 1];
      var last := cells[|cells| - 1];
      ElemsCard(init);
      assert Elems(cells) == Elems(init) + {last};
      if NoDuplicates(cells) {
        assert NoDuplicates(init);
        assert last !in Elems(init);
      }
    }
  }

  /**
   A snake lying inside the walls without overlapping itself leaves a free cell
   exactly when it is shorter than the interior. When it fills the interior,
   the rejection loop that places food can never succeed.
   */
  lemma FreeCellIff(width: int, height: int, cells: seq<Pos>)
    requires width >= 2 && height >= 2
    requires AllInterior(width, height, cells)
    requires NoDuplicates(cells)
    ensures HasFreeCell(width, height, cells) <==> |cells| < InteriorSize(width, height)
  {
    var all := Rect(width - 2, height - 2);
    var taken := Elems(cells);
    ElemsCard(cells);
    assert taken <= all;
    assert all == taken + (all - taken);
    if |cells| < InteriorSize(width, height) {
      assert |all - taken| > 0;
      var p :| p in all - taken;
      assert Free(width, height, cells, p);
    }
    if HasFreeCell(width, height, cells) {
      var p :| Free(width, height, cells, p);
      assert p in all - taken;
    }
  }
}
