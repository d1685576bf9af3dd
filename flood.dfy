/**
 * The flood fill that finds a group of connected beans in the snapshot of
 * the field. A visit empties its cell in the snapshot, so no bean is counted
 * twice. From a coloured bean of colour c the fill spreads to neighbours of
 * colour c and to neutral beans (value 1); from a neutral bean it spreads
 * only to neutral beans.
 *
 * The predicates below describe, on values, what one call of the fill does
 * to the snapshot s0 and the visited list cs0: the cells it appends, what
 * they held, that it empties exactly those cells, and that it leaves no
 * neighbour behind that it should have absorbed.
 */
module Flood {
  import opened Board

  /** p and q are both on the field and share a side. */
  predicate Next(p: Cell, q: Cell) {
    InBounds(p.0, p.1) && InBounds(q.0, q.1) &&
    ((p.0 == q.0 && (p.1 - q.1 == 1 || q.1 - p.1 == 1)) ||
     (p.1 == q.1 && (p.0 - q.0 == 1 || q.0 - p.0 == 1)))
  }

  /**
   * A bean holding a (a colour 2..6, or 1 for neutral) takes its neighbour
   * holding v into its group: neutral beans join any group, a coloured bean
   * joins only through a bean of its own colour.
   */
  predicate Absorbs(a: int, v: int) {
    v == 1 || (a >= 2 && v == a)
  }

  /** The cell a fill of colour c (or -1 from a neutral bean) may start from. */
  predicate Seed(c: int, v: int) {
    (c >= 2 && v == c) || (c == -1 && v == 1)
  }

  /** Every listed cell is on the field and already emptied in the snapshot s. */
  predicate Visited(s: Grid, cs: seq<Cell>)
    requires IsGrid(s)
  {
    forall i :: 0 <= i < |cs| ==> InBounds(cs[i].0, cs[i].1) && s[cs[i].0][cs[i].1] == 0
  }

  /**
   * One call of the fill with colour c took snapshot s0 to s1 and list cs0
   * to cs1: it appended cells that held beans of the group (judged on s0)
   * and are now empty, and every cell it changed it emptied and appended.
   */
  ghost predicate Flooded(s0: Grid, s1: Grid, cs0: seq<Cell>, cs1: seq<Cell>, c: int)
    requires IsGrid(s0) && IsGrid(s1)
  {
    |cs0| <= |cs1| && cs1[..|cs0|] == cs0 &&
    (forall i :: |cs0| <= i < |cs1| ==>
      InBounds(cs1[i].0, cs1[i].1) && Absorbs(c, s0[cs1[i].0][cs1[i].1]) && s1[cs1[i].0][cs1[i].1] == 0) &&
    (forall y, x :: InBounds(y, x) && s1[y][x] != s0[y][x] ==> s1[y][x] == 0 && (y, x) in cs1[|cs0|..])
  }

  /**
   * The cells cs[lo..] leave no neighbour behind: every neighbour that one
   * of them absorbs (judged on s0) is empty in s1.
   */
  ghost predicate Closed(s0: Grid, s1: Grid, cs: seq<Cell>, lo: int)
    requires IsGrid(s0) && IsGrid(s1)
  {
    forall i, q ::
      (0 <= lo <= i < |cs| && Next(cs[i], q) && Absorbs(s0[cs[i].0][cs[i].1], s0[q.0][q.1])) ==>
      s1[q.0][q.1] == 0
  }

  /**
   * Every cell of cs after cs[lo] was reached from an earlier cell of
   * cs[lo..]: it is a neighbour of that cell and that cell absorbs it
   * (judged on s0).
   */
  ghost predicate Connected(s0: Grid, cs: seq<Cell>, lo: int)
    requires IsGrid(s0)
  {
    forall i :: 0 <= lo < i < |cs| ==>
      exists j :: lo <= j < i && Next(cs[j], cs[i]) && Absorbs(s0[cs[j].0][cs[j].1], s0[cs[i].0][cs[i].1])
  }

  /**
   * cs is the group of the bean at (y, x) in snapshot s0 and s1 is s0 with
   * the group emptied: the group starts at (y, x), holds only beans of its
   * colour and neutral beans, each of its cells was reached from an earlier
   * one, and no neighbour it absorbs is left out.
   */
  ghost predicate Group(s0: Grid, s1: Grid, cs: seq<Cell>, y: int, x: int)
    requires IsGrid(s0) && IsGrid(s1) && InBounds(y, x)
  {
    Flooded(s0, s1, [], cs, s0[y][x]) && Closed(s0, s1, cs, 0) && Connected(s0, cs, 0) &&
    |cs| > 0 && cs[0] == (y, x)
  }

  /**
   * Appending a fill's cells to a list of cells emptied earlier keeps the
   * list free of repeats and all of it empty in the new snapshot.
   */
  lemma AppendFill(s0: Grid, s1: Grid, e: seq<Cell>, cs: seq<Cell>, c: int)
    requires IsGrid(s0) && IsGrid(s1) && Flooded(s0, s1, [], cs, c)
    requires Distinct(e) && Visited(s0, e) && Distinct(cs)
    ensures Distinct(e + cs) && Visited(s1, e + cs)
  {
    forall i, j | 0 <= i < |e| && 0 <= j < |cs| ensures e[i] != cs[j] {
      assert s0[cs[j].0][cs[j].1] != 0;
    }
    forall i | 0 <= i < |e| ensures s1[e[i].0][e[i].1] == 0 {
      if s1[e[i].0][e[i].1] != s0[e[i].0][e[i].1] {
      }
    }
  }

  /**
   * A fill on a snapshot of the field g whose cells are g's or emptied: it
   * keeps the snapshot so, and every cell it takes holds a bean in g.
   */
  lemma FillMarksBeans(g: Grid, s0: Grid, s1: Grid, cs: seq<Cell>, c: int)
    requires IsGrid(g) && IsGrid(s0) && IsGrid(s1) && Flooded(s0, s1, [], cs, c)
    requires forall y, x :: InBounds(y, x) ==> s0[y][x] == g[y][x] || s0[y][x] == 0
    ensures forall y, x :: InBounds(y, x) ==> s1[y][x] == g[y][x] || s1[y][x] == 0
    ensures forall k :: 0 <= k < |cs| ==> g[cs[k].0][cs[k].1] != 0
  {
    forall k | 0 <= k < |cs| ensures g[cs[k].0][cs[k].1] != 0 {
      assert Absorbs(c, s0[cs[k].0][cs[k].1]);
    }
  }

  /** The visit of neighbour q from a cell of a fill of colour c absorbed it (emptied it) if it had to. */
  ghost predicate Reached(s0: Grid, s1: Grid, q: Cell, c: int)
    requires IsGrid(s0) && IsGrid(s1)
  {
    InBounds(q.0, q.1) && Absorbs(c, s0[q.0][q.1]) ==> s1[q.0][q.1] == 0
  }

  /** The cells of s holding a bean. */
  ghost function NonZero(s: Grid): set<Cell>
    requires IsGrid(s)
  {
    set y, x | 0 <= y < Rows && 0 <= x < Cols && s[y][x] != 0 :: (y, x)
  }

  /** Visiting the seed: emptying it and appending it is one step of the fill, and removes a bean. */
  lemma FloodStart(s0: Grid, cs0: seq<Cell>, y: int, x: int, c: int)
    requires IsGrid(s0) && Legal(s0) && InBounds(y, x) && Seed(c, s0[y][x])
    requires Distinct(cs0) && Visited(s0, cs0)
    ensures var s1, cs1 := Write(s0, y, x, 0), cs0 + [(y, x)];
      Flooded(s0, s1, cs0, cs1, c) && Legal(s1) && Distinct(cs1) && Visited(s1, cs1) &&
      NonZero(s1) < NonZero(s0) && SeedProgress(s0, s1, cs0, cs1, y, x, c, 0)
  {
    var s1, cs1 := Write(s0, y, x, 0), cs0 + [(y, x)];
    assert cs1[..|cs0|] == cs0 && cs1[|cs0|..] == [(y, x)];
    assert (y, x) in NonZero(s0) && (y, x) !in NonZero(s1);
  }

  /** A fill only empties cells, so it never adds to the beans of the snapshot. */
  lemma FloodedShrinks(s0: Grid, s1: Grid, cs0: seq<Cell>, cs1: seq<Cell>, c: int)
    requires IsGrid(s0) && IsGrid(s1) && Flooded(s0, s1, cs0, cs1, c)
    ensures NonZero(s1) <= NonZero(s0)
  {
    forall p | p in NonZero(s1) ensures p in NonZero(s0) {
      assert s1[p.0][p.1] == s0[p.0][p.1];
    }
  }

  /** A call that visits nothing is a (trivial) fill. */
  lemma FloodedNone(s: Grid, cs: seq<Cell>, c: int)
    requires IsGrid(s)
    ensures Flooded(s, s, cs, cs, c) && Closed(s, s, cs, |cs|) && Connected(s, cs, |cs|)
  {
    assert cs[..|cs|] == cs;
  }

  /** A fill of neutral beans is also a fill for any group colour. */
  lemma FloodedNeutral(s0: Grid, s1: Grid, cs0: seq<Cell>, cs1: seq<Cell>, c: int)
    requires IsGrid(s0) && IsGrid(s1) && Flooded(s0, s1, cs0, cs1, -1)
    ensures Flooded(s0, s1, cs0, cs1, c)
  {
  }

  /** Two fills of one colour in a row are one fill. */
  lemma FloodedTrans(s0: Grid, s1: Grid, s2: Grid, cs0: seq<Cell>, cs1: seq<Cell>, cs2: seq<Cell>, c: int)
    requires IsGrid(s0) && IsGrid(s1) && IsGrid(s2)
    requires Flooded(s0, s1, cs0, cs1, c) && Flooded(s1, s2, cs1, cs2, c)
    ensures Flooded(s0, s2, cs0, cs2, c)
  {
    assert cs2[..|cs0|] == cs1[..|cs0|];
    assert cs2[|cs0|..] == cs1[|cs0|..] + cs2[|cs1|..];
    forall i | |cs1| <= i < |cs2|
      ensures Absorbs(c, s0[cs2[i].0][cs2[i].1])
    {
      assert s1[cs2[i].0][cs2[i].1] == s0[cs2[i].0][cs2[i].1];
    }
  }

  /** Closure established by a later fill carries over to the combined fill. */
  lemma ClosedTrans(s0: Grid, s1: Grid, s2: Grid, cs0: seq<Cell>, cs1: seq<Cell>, cs2: seq<Cell>,
                    c: int, lo: int)
    requires IsGrid(s0) && IsGrid(s1) && IsGrid(s2)
    requires Flooded(s0, s1, cs0, cs1, c) && Flooded(s1, s2, cs1, cs2, c)
    requires Closed(s0, s1, cs1, lo) && Closed(s1, s2, cs2, |cs1|) && |cs0| <= lo
    ensures Closed(s0, s2, cs2, lo)
  {
    forall i, q | lo <= i < |cs2| && Next(cs2[i], q) &&
      Absorbs(s0[cs2[i].0][cs2[i].1], s0[q.0][q.1])
      ensures s2[q.0][q.1] == 0
    {
      if i < |cs1| {
        assert cs2[i] == cs1[i];
      } else {
        assert s1[cs2[i].0][cs2[i].1] == s0[cs2[i].0][cs2[i].1];
      }
    }
  }

  /** The k-th neighbour check_neighbors looks at: below (row - 1), above (row + 1), left, right. */
  function Dir(y: int, x: int, k: int): Cell {
    if k == 0 then (y - 1, x) else if k == 1 then (y + 1, x) else if k == 2 then (y, x - 1) else (y, x + 1)
  }

  /**
   * check_neighbors after emptying the seed (y, x) and visiting its first k
   * neighbours: one fill from s0 that starts at the seed, the cells after
   * the seed leave no neighbour behind, and so do the first k neighbours of
   * the seed.
   */
  ghost predicate SeedProgress(s0: Grid, s: Grid, l0: seq<Cell>, l: seq<Cell>, y: int, x: int, c: int, k: int)
    requires IsGrid(s0) && IsGrid(s)
  {
    Flooded(s0, s, l0, l, c) && Closed(s0, s, l, |l0| + 1) && Connected(s0, l, |l0|) &&
    |l| > |l0| && l[|l0|] == (y, x) &&
    forall j :: 0 <= j < k ==> Reached(s0, s, Dir(y, x, j), c)
  }

  /** Visiting the next neighbour of the seed extends the progress by one neighbour. */
  lemma SeedStep(s0: Grid, s: Grid, t: Grid, l0: seq<Cell>, l: seq<Cell>, m: seq<Cell>,
                 y: int, x: int, c: int, k: int)
    requires IsGrid(s0) && IsGrid(s) && IsGrid(t) && 0 <= k && InBounds(y, x) && Seed(c, s0[y][x])
    requires SeedProgress(s0, s, l0, l, y, x, c, k)
    requires Flooded(s, t, l, m, c) && Closed(s, t, m, |l|) && Reached(s, t, Dir(y, x, k), c)
    requires Connected(s, m, |l|) && (|m| > |l| ==> m[|l|] == Dir(y, x, k))
    ensures SeedProgress(s0, t, l0, m, y, x, c, k + 1)
  {
    forall i | |l0| < i < |m|
      ensures exists j ::
        |l0| <= j < i && Next(m[j], m[i]) && Absorbs(s0[m[j].0][m[j].1], s0[m[i].0][m[i].1])
    {
      assert m[|l0|] == l[|l0|];
      if i < |l| {
        assert m[i] == l[i];
        var j :| |l0| <= j < i && Next(l[j], l[i]) && Absorbs(s0[l[j].0][l[j].1], s0[l[i].0][l[i].1]);
        assert m[j] == l[j];
      } else if i == |l| {
        assert s[m[i].0][m[i].1] == s0[m[i].0][m[i].1];
        assert Next(m[|l0|], m[i]) && Absorbs(s0[y][x], s0[m[i].0][m[i].1]);
      } else {
        var j :| |l| <= j < i && Next(m[j], m[i]) && Absorbs(s[m[j].0][m[j].1], s[m[i].0][m[i].1]);
        assert s[m[i].0][m[i].1] == s0[m[i].0][m[i].1];
        assert s[m[j].0][m[j].1] == s0[m[j].0][m[j].1];
      }
    }
    FloodedTrans(s0, s, t, l0, l, m, c);
    ClosedTrans(s0, s, t, l0, l, m, c, |l0| + 1);
    assert m[|l0|] == l[|l0|];
    forall j | 0 <= j < k + 1 ensures Reached(s0, t, Dir(y, x, j), c) {
      if j < k {
        assert Reached(s0, s, Dir(y, x, j), c);
      }
    }
  }

  /**
   * check_neighbors as a whole: once all four neighbours of the seed have
   * been visited, the fill leaves no neighbour of any visited cell behind.
   */
  lemma SeedDone(s0: Grid, s: Grid, l0: seq<Cell>, l: seq<Cell>, y: int, x: int, c: int)
    requires IsGrid(s0) && IsGrid(s) && InBounds(y, x) && Seed(c, s0[y][x])
    requires SeedProgress(s0, s, l0, l, y, x, c, 4)
    ensures Flooded(s0, s, l0, l, c) && Connected(s0, l, |l0|) && |l| > |l0| && l[|l0|] == (y, x)
    ensures Closed(s0, s, l, |l0|)
  {
    forall i, q | |l0| <= i < |l| && Next(l[i], q) && Absorbs(s0[l[i].0][l[i].1], s0[q.0][q.1])
      ensures s[q.0][q.1] == 0
    {
      if i == |l0| {
        var k := DirOf(y, x, q);
        assert Reached(s0, s, Dir(y, x, k), c);
      }
    }
  }

  /** Which of the four visits of check_neighbors looks at the neighbour q of (y, x). */
  function DirOf(y: int, x: int, q: Cell): (k: int)
    requires Next((y, x), q)
    ensures 0 <= k < 4 && Dir(y, x, k) == q
  {
    if q == (y - 1, x) then 0 else if q == (y + 1, x) then 1 else if q == (y, x - 1) then 2 else 3
  }
}
