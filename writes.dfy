/** Writes into the new grid of a tick. Every rule is described by the list of
    writes it performs; the cell value after a list of writes is the value of
    the last one that lands on it. */
module Writes {
  import opened Grids

  /** `Set` goes through `setGrid`, which drops it unless `0 < x < width` and
      `0 < y < height`; `Raw` is a direct `newGrid[x][y] = m`. */
  datatype Write = Set(x: int, y: int, m: Material) | Raw(x: int, y: int, m: Material)

  /** `checkXWithinGrid`: column 0 is excluded as well as everything outside. */
  predicate XWithinGrid(x: int, width: int)
  {
    x > 0 && x < width
  }

  /** `checkYWithinGrid`: row 0 is excluded as well as everything outside. */
  predicate YWithinGrid(y: int, height: int)
  {
    y > 0 && y < height
  }

  /** Whether write `w` into a `width` x `height` buffer changes cell (i, j). */
  predicate Lands(w: Write, width: int, height: int, i: int, j: int)
  {
    w.x == i && w.y == j &&
    match w
    case Set(_, _, _) => XWithinGrid(i, width) && YWithinGrid(j, height)
    case Raw(_, _, _) => 0 <= i < width && 0 <= j < height
  }

  /** A raw write whose column does not exist: `newGrid[x]` is `undefined`
      and indexing it raises a TypeError. (A raw write to a missing row of an
      existing column only grows that column and lands nowhere.) */
  predicate Throws(w: Write, width: int)
  {
    w.Raw? && !(0 <= w.x < width)
  }

  /** The value of cell (i, j) after the writes `ws`, in order, on a buffer
      where it held `d`: the last write that lands there wins. */
  function After(ws: seq<Write>, width: int, height: int, i: int, j: int, d: Material): Material
  {
    if ws == [] then d
    else if Lands(ws[|ws| - 1], width, height, i, j) then ws[|ws| - 1].m
    else After(ws[..|ws| - 1], width, height, i, j, d)
  }

  /** Performing `a` and then `b` is performing `a + b`. */
  lemma {:induction false} AfterAppend(a: seq<Write>, b: seq<Write>, width: int, height: int, i: int, j: int, d: Material)
    ensures After(a + b, width, height, i, j, d) == After(b, width, height, i, j, After(a, width, height, i, j, d))
    decreases |b|
  {
    if b == [] {
      assert a + b == a;
    } else {
      var b' := b[..|b| - 1];
      assert (a + b)[..|a + b| - 1] == a + b';
      AfterAppend(a, b', width, height, i, j, d);
    }
  }

  /** Every write of `ws` that lands on cell (i, j) writes a member of `s`. */
  predicate Within(ws: seq<Write>, width: int, height: int, i: int, j: int, s: set<Material>)
  {
    forall k :: 0 <= k < |ws| && Lands(ws[k], width, height, i, j) ==> ws[k].m in s
  }

  lemma WithinAppend(a: seq<Write>, b: seq<Write>, width: int, height: int, i: int, j: int, s: set<Material>)
    requires Within(a, width, height, i, j, s) && Within(b, width, height, i, j, s)
    ensures Within(a + b, width, height, i, j, s)
  {
    forall k | 0 <= k < |a + b| && Lands((a + b)[k], width, height, i, j) ensures (a + b)[k].m in s {
      if k < |a| {
        assert (a + b)[k] == a[k];
      } else {
        assert (a + b)[k] == b[k - |a|];
      }
    }
  }

  /** After writes whose landing materials all lie in `s`, a cell holds its
      old value or a member of `s`. */
  lemma {:induction false} AfterWithin(ws: seq<Write>, width: int, height: int, i: int, j: int, d: Material, s: set<Material>)
    requires Within(ws, width, height, i, j, s)
    ensures After(ws, width, height, i, j, d) == d || After(ws, width, height, i, j, d) in s
    decreases |ws|
  {
    if ws != [] && !Lands(ws[|ws| - 1], width, height, i, j) {
      var ws' := ws[..|ws| - 1];
      assert Within(ws', width, height, i, j, s) by {
        forall k | 0 <= k < |ws'| && Lands(ws'[k], width, height, i, j) ensures ws'[k].m in s {
          assert ws'[k] == ws[k];
        }
      }
      AfterWithin(ws', width, height, i, j, d, s);
    }
  }

  /** Once some write lands on a cell, its old value no longer matters. */
  lemma {:induction false} AfterForgetsStart(ws: seq<Write>, width: int, height: int, i: int, j: int, d: Material, e: Material)
    requires exists k :: 0 <= k < |ws| && Lands(ws[k], width, height, i, j)
    ensures After(ws, width, height, i, j, d) == After(ws, width, height, i, j, e)
    decreases |ws|
  {
    var k :| 0 <= k < |ws| && Lands(ws[k], width, height, i, j);
    if !Lands(ws[|ws| - 1], width, height, i, j) {
      var ws' := ws[..|ws| - 1];
      assert k < |ws'| && ws'[k] == ws[k];
      AfterForgetsStart(ws', width, height, i, j, d, e);
    }
  }

  /** A cell holding `v` keeps it through writes that put nothing else there. */
  lemma AfterKeeps(a: seq<Write>, b: seq<Write>, width: int, height: int, i: int, j: int, d: Material, v: Material)
    requires After(a, width, height, i, j, d) == v
    requires Within(b, width, height, i, j, {v})
    ensures After(a + b, width, height, i, j, d) == v
  {
    AfterAppend(a, b, width, height, i, j, d);
    AfterWithin(b, width, height, i, j, v, {v});
  }

  /** Writes that land on a cell decide it, whatever came before them. */
  lemma AfterDecides(a: seq<Write>, b: seq<Write>, width: int, height: int, i: int, j: int, d: Material)
    requires exists k :: 0 <= k < |b| && Lands(b[k], width, height, i, j)
    ensures After(a + b, width, height, i, j, d) == After(b, width, height, i, j, Empty)
  {
    AfterAppend(a, b, width, height, i, j, d);
    AfterForgetsStart(b, width, height, i, j, After(a, width, height, i, j, d), Empty);
  }

  /** The new grid of a tick holds what the writes `ws` leave on a grid that
      started out empty. */
  ghost predicate Shows(a: array2<Material>, ws: seq<Write>)
    reads a
  {
    forall i, j :: 0 <= i < a.Length0 && 0 <= j < a.Length1 ==> a[i, j] == After(ws, a.Length0, a.Length1, i, j, Empty)
  }

  /** `if (c) newGrid[x][y] = m`, a direct write into a cell of the grid. */
  method PutIf(a: array2<Material>, c: bool, x: int, y: int, m: Material)
    requires c ==> 0 <= x < a.Length0 && 0 <= y < a.Length1
    modifies a
    ensures c ==> a[x, y] == m
    ensures forall i, j :: 0 <= i < a.Length0 && 0 <= j < a.Length1 && !(c && (i, j) == (x, y)) ==> a[i, j] == old(a[i, j])
    ensures forall i, j :: 0 <= i < a.Length0 && 0 <= j < a.Length1 ==>
              a[i, j] == After(if c then [Raw(x, y, m)] else [], a.Length0, a.Length1, i, j, old(a[i, j]))
  {
    if c {
      a[x, y] := m;
    }
  }

  /** `setGrid`: writes `m` at (x, y) when `0 < x < width && 0 < y < height`,
      and otherwise leaves the grid unchanged. */
  method SetGrid(a: array2<Material>, x: int, y: int, m: Material)
    modifies a
    ensures XWithinGrid(x, a.Length0) && YWithinGrid(y, a.Length1) ==> a[x, y] == m
    ensures forall i, j :: 0 <= i < a.Length0 && 0 <= j < a.Length1 && (i, j) != (x, y) ==> a[i, j] == old(a[i, j])
    ensures !(XWithinGrid(x, a.Length0) && YWithinGrid(y, a.Length1)) ==> unchanged(a)
    ensures forall i, j :: 0 <= i < a.Length0 && 0 <= j < a.Length1 ==>
              a[i, j] == After([Set(x, y, m)], a.Length0, a.Length1, i, j, old(a[i, j]))
  {
    if XWithinGrid(x, a.Length0) && YWithinGrid(y, a.Length1) {
      a[x, y] := m;
    }
  }
}
