/**
 * Flood-fill theory shared by the server's rules engine (app/game_state.py)
 * and the client's replay engine (app/static/go_engine.js).
 *
 * Both sources keep the board as a flat list of cell codes: 0 empty,
 * 1 black, 2 white. Each source has its own way of listing the cells next
 * to a cell; here that is abstracted as a neighbour table `nb`, where
 * `nb[i]` lists the neighbours of cell `i`. A group is everything a flood
 * fill reaches from a seed through cells of one colour.
 */
module Groups {

  /** The cell codes of the board. */
  const EMPTY: int := 0
  const BLACK: int := 1
  const WHITE: int := 2

  /** Every neighbour the table lists is a cell of the board. */
  ghost predicate TableInBounds(nb: seq<seq<int>>) {
    forall i, j :: 0 <= i < |nb| && j in nb[i] ==> 0 <= j < |nb|
  }

  /** Adjacency is symmetric: i lists j exactly when j lists i. */
  ghost predicate TableSymmetric(nb: seq<seq<int>>) {
    forall i, j :: 0 <= i < |nb| && 0 <= j < |nb| && j in nb[i] ==> i in nb[j]
  }

  /** Two tables list the same neighbours for every cell (in any order). */
  ghost predicate SameNeighbours(nb1: seq<seq<int>>, nb2: seq<seq<int>>) {
    |nb1| == |nb2| && forall i, j :: 0 <= i < |nb1| ==> (j in nb1[i] <==> j in nb2[i])
  }

  /**
   * `p` is a walk that starts at `p[0]` (whatever its colour) and then
   * steps from each cell to a listed neighbour of colour `c`.
   */
  ghost predicate IsChain(b: seq<int>, nb: seq<seq<int>>, c: int, p: seq<int>) {
    && |p| >= 1
    && |b| == |nb|
    && (forall k :: 0 <= k < |p| ==> 0 <= p[k] < |b|)
    && (forall k :: 0 < k < |p| ==> b[p[k]] == c && p[k] in nb[p[k - 1]])
  }

  ghost predicate Reaches(b: seq<int>, nb: seq<seq<int>>, c: int, s: int, v: int) {
    exists p :: IsChain(b, nb, c, p) && p[0] == s && p[|p| - 1] == v
  }

  /** The cells a flood fill from `s` reaches through cells of colour `c`. */
  ghost function Group(b: seq<int>, nb: seq<seq<int>>, s: int, c: int): set<int> {
    set v | 0 <= v < |b| && Reaches(b, nb, c, s, v)
  }

  /** `S` already holds every neighbour of colour `c` of each of its cells. */
  ghost predicate Closed(b: seq<int>, nb: seq<seq<int>>, c: int, S: set<int>) {
    forall v, n :: v in S && 0 <= v < |nb| && n in nb[v] && 0 <= n < |b| && b[n] == c ==> n in S
  }

  /** All cells of `S` are on the board and have colour `c`. */
  ghost predicate AllOfColour(b: seq<int>, c: int, S: set<int>) {
    forall v :: v in S ==> 0 <= v < |b| && b[v] == c
  }

  /** The empty cells outside `G` next to some cell of `G`. */
  ghost function Liberties(b: seq<int>, nb: seq<seq<int>>, G: set<int>): set<int> {
    set n | 0 <= n < |b| && b[n] == EMPTY && n !in G && Touches(nb, G, n)
  }

  ghost predicate Touches(nb: seq<seq<int>>, G: set<int>, n: int) {
    exists v :: v in G && 0 <= v < |nb| && n in nb[v]
  }

  /** The colours of the stones next to some cell of `R`. */
  ghost function BorderColours(b: seq<int>, nb: seq<seq<int>>, R: set<int>): set<int> {
    set n | 0 <= n < |b| && b[n] != EMPTY && Touches(nb, R, n) :: b[n]
  }

  /** The colours found at the cells `S`. */
  ghost function Colours(b: seq<int>, S: set<int>): set<int> {
    set n | n in S && 0 <= n < |b| :: b[n]
  }

  lemma ColoursAdd(b: seq<int>, S: set<int>, n: int)
    requires 0 <= n < |b|
    ensures Colours(b, S + {n}) == Colours(b, S) + {b[n]}
  {
  }

  /** The board with every cell of `G` emptied. */
  function ClearCells(b: seq<int>, G: set<int>): (r: seq<int>)
    ensures |r| == |b|
    ensures forall i :: 0 <= i < |b| ==> r[i] == if i in G then EMPTY else b[i]
  {
    seq(|b|, i requires 0 <= i < |b| => if i in G then EMPTY else b[i])
  }

  /** The group of colour `opp` at `n` exists and has no liberty. */
  ghost predicate DeadAt(b: seq<int>, nb: seq<seq<int>>, n: int, opp: int) {
    0 <= n < |b| && b[n] == opp && Liberties(b, nb, Group(b, nb, n, opp)) == {}
  }

  /** The union of the liberty-less groups of colour `opp` at the listed cells. */
  ghost function DeadAround(b: seq<int>, nb: seq<seq<int>>, cells: seq<int>, opp: int): set<int> {
    set v | 0 <= v < |b| && InDeadGroup(b, nb, cells, opp, v)
  }

  ghost predicate InDeadGroup(b: seq<int>, nb: seq<seq<int>>, cells: seq<int>, opp: int, v: int) {
    exists n :: n in cells && DeadAt(b, nb, n, opp) && v in Group(b, nb, n, opp)
  }

  // ---------------------------------------------------------------------
  // Chains

  lemma ChainExtend(b: seq<int>, nb: seq<seq<int>>, c: int, p: seq<int>, n: int)
    requires IsChain(b, nb, c, p)
    requires 0 <= n < |b| && b[n] == c && n in nb[p[|p| - 1]]
    ensures IsChain(b, nb, c, p + [n])
  {
    var q := p + [n];
    forall k | 0 < k < |q| ensures b[q[k]] == c && q[k] in nb[q[k - 1]] {
      if k < |p| {
        assert q[k] == p[k] && q[k - 1] == p[k - 1];
      }
    }
  }

  /** Walking forwards from a cell of a closed set never leaves it. */
  lemma {:induction false} ChainWithin(b: seq<int>, nb: seq<seq<int>>, c: int, S: set<int>, p: seq<int>, k: nat)
    requires IsChain(b, nb, c, p) && Closed(b, nb, c, S) && p[0] in S
    requires k < |p|
    ensures p[k] in S
    decreases k
  {
    if k > 0 {
      ChainWithin(b, nb, c, S, p, k - 1);
      assert p[k] in nb[p[k - 1]];
    }
  }

  /**
   * Walking backwards along a chain whose start also has colour `c`
   * never leaves a closed set: adjacency is symmetric.
   */
  lemma {:induction false} ChainBackWithin(b: seq<int>, nb: seq<seq<int>>, c: int, S: set<int>, p: seq<int>, k: nat)
    requires TableSymmetric(nb)
    requires IsChain(b, nb, c, p) && Closed(b, nb, c, S) && b[p[0]] == c
    requires k < |p| && p[|p| - 1] in S
    ensures p[k] in S
    decreases |p| - k
  {
    if k < |p| - 1 {
      ChainBackWithin(b, nb, c, S, p, k + 1);
      assert p[k + 1] in nb[p[k]];
      assert p[k] in nb[p[k + 1]];
    }
  }

  // ---------------------------------------------------------------------
  // Groups

  lemma GroupHasStart(b: seq<int>, nb: seq<seq<int>>, s: int, c: int)
    requires |b| == |nb| && 0 <= s < |b|
    ensures s in Group(b, nb, s, c)
  {
    assert IsChain(b, nb, c, [s]);
  }

  /** Every cell of a group but its seed has the group's colour. */
  lemma GroupColoured(b: seq<int>, nb: seq<seq<int>>, s: int, c: int, v: int)
    requires v in Group(b, nb, s, c) && v != s
    ensures 0 <= v < |b| && b[v] == c
  {
    var p :| IsChain(b, nb, c, p) && p[0] == s && p[|p| - 1] == v;
    assert |p| > 1;
  }

  lemma GroupIsClosed(b: seq<int>, nb: seq<seq<int>>, s: int, c: int)
    ensures Closed(b, nb, c, Group(b, nb, s, c))
  {
    var G := Group(b, nb, s, c);
    forall v, n | v in G && 0 <= v < |nb| && n in nb[v] && 0 <= n < |b| && b[n] == c
      ensures n in G
    {
      var p :| IsChain(b, nb, c, p) && p[0] == s && p[|p| - 1] == v;
      ChainExtend(b, nb, c, p, n);
      var q := p + [n];
      assert q[0] == s && q[|q| - 1] == n;
    }
  }

  /** One flood-fill step: a neighbour of colour `c` of a group cell is in the group. */
  lemma GroupStep(b: seq<int>, nb: seq<seq<int>>, s: int, c: int, v: int, n: int)
    requires v in Group(b, nb, s, c) && 0 <= v < |nb| && n in nb[v] && 0 <= n < |b| && b[n] == c
    ensures n in Group(b, nb, s, c)
  {
    GroupIsClosed(b, nb, s, c);
  }

  lemma ClosedUnion(b: seq<int>, nb: seq<seq<int>>, c: int, A: set<int>, B: set<int>)
    requires Closed(b, nb, c, A) && Closed(b, nb, c, B)
    ensures Closed(b, nb, c, A + B)
  {
  }

  /** A group is the least closed set that holds its seed. */
  lemma GroupWithin(b: seq<int>, nb: seq<seq<int>>, s: int, c: int, S: set<int>)
    requires Closed(b, nb, c, S) && s in S
    ensures Group(b, nb, s, c) <= S
  {
    forall v | v in Group(b, nb, s, c) ensures v in S {
      var p :| IsChain(b, nb, c, p) && p[0] == s && p[|p| - 1] == v;
      ChainWithin(b, nb, c, S, p, |p| - 1);
    }
  }

  /** A closed set that meets the group of a cell of colour `c` holds that cell. */
  lemma MeetsGroupHoldsSeed(b: seq<int>, nb: seq<seq<int>>, s: int, c: int, S: set<int>, v: int)
    requires TableSymmetric(nb) && Closed(b, nb, c, S)
    requires 0 <= s < |b| && b[s] == c
    requires v in Group(b, nb, s, c) && v in S
    ensures s in S
  {
    var p :| IsChain(b, nb, c, p) && p[0] == s && p[|p| - 1] == v;
    ChainBackWithin(b, nb, c, S, p, 0);
  }

  /** Any cell of the group of a cell of colour `c` has that very group. */
  lemma SameGroup(b: seq<int>, nb: seq<seq<int>>, s: int, c: int, v: int)
    requires TableSymmetric(nb)
    requires 0 <= s < |b| && b[s] == c
    requires v in Group(b, nb, s, c)
    ensures Group(b, nb, v, c) == Group(b, nb, s, c)
  {
    GroupIsClosed(b, nb, s, c);
    GroupWithin(b, nb, v, c, Group(b, nb, s, c));
    GroupIsClosed(b, nb, v, c);
    GroupHasStart(b, nb, v, c);
    MeetsGroupHoldsSeed(b, nb, s, c, Group(b, nb, v, c), v);
    GroupWithin(b, nb, s, c, Group(b, nb, v, c));
  }

  /** Tables that list the same neighbours give the same groups and liberties. */
  lemma SameNeighboursSameGroup(b: seq<int>, nb1: seq<seq<int>>, nb2: seq<seq<int>>, s: int, c: int)
    requires SameNeighbours(nb1, nb2)
    ensures Group(b, nb1, s, c) == Group(b, nb2, s, c)
    ensures Liberties(b, nb1, Group(b, nb1, s, c)) == Liberties(b, nb2, Group(b, nb2, s, c))
  {
    forall p | IsChain(b, nb1, c, p) ensures IsChain(b, nb2, c, p) {
      forall k | 0 < k < |p| ensures p[k] in nb2[p[k - 1]] {
        assert p[k] in nb1[p[k - 1]];
      }
    }
    forall p | IsChain(b, nb2, c, p) ensures IsChain(b, nb1, c, p) {
      forall k | 0 < k < |p| ensures p[k] in nb1[p[k - 1]] {
        assert p[k] in nb2[p[k - 1]];
      }
    }
    var G := Group(b, nb1, s, c);
    assert G == Group(b, nb2, s, c) by {
      forall v ensures Reaches(b, nb1, c, s, v) <==> Reaches(b, nb2, c, s, v) {
        if Reaches(b, nb1, c, s, v) {
          var p :| IsChain(b, nb1, c, p) && p[0] == s && p[|p| - 1] == v;
          assert IsChain(b, nb2, c, p);
        }
        if Reaches(b, nb2, c, s, v) {
          var p :| IsChain(b, nb2, c, p) && p[0] == s && p[|p| - 1] == v;
          assert IsChain(b, nb1, c, p);
        }
      }
    }
    forall n ensures Touches(nb1, G, n) <==> Touches(nb2, G, n) {
      if Touches(nb1, G, n) {
        var v :| v in G && 0 <= v < |nb1| && n in nb1[v];
        assert n in nb2[v];
      }
      if Touches(nb2, G, n) {
        var v :| v in G && 0 <= v < |nb2| && n in nb2[v];
        assert n in nb1[v];
      }
    }
  }

  // ---------------------------------------------------------------------
  // Removing captured groups

  /**
   * Emptying a closed set `D` of stones of colour `c` leaves the group of
   * any other stone of colour `c`, and that group's liberties, as they were:
   * no stone of `D` can touch that group, or it would belong to it.
   */
  lemma ClearKeepsGroup(b: seq<int>, nb: seq<seq<int>>, D: set<int>, n: int, c: int)
    requires TableSymmetric(nb) && |b| == |nb| && c != EMPTY
    requires Closed(b, nb, c, D) && AllOfColour(b, c, D)
    requires 0 <= n < |b| && b[n] == c && n !in D
    ensures Group(ClearCells(b, D), nb, n, c) == Group(b, nb, n, c)
    ensures Liberties(ClearCells(b, D), nb, Group(b, nb, n, c)) == Liberties(b, nb, Group(b, nb, n, c))
  {
    var b' := ClearCells(b, D);
    var G := Group(b, nb, n, c);
    GroupIsClosed(b, nb, n, c);
    forall v | v in G ensures v !in D {
      if v in D {
        MeetsGroupHoldsSeed(b, nb, n, c, D, v);
      }
    }
    assert Closed(b', nb, c, G);
    GroupHasStart(b, nb, n, c);
    GroupWithin(b', nb, n, c, G);
    var G' := Group(b', nb, n, c);
    assert Closed(b, nb, c, G') by {
      GroupIsClosed(b', nb, n, c);
      forall v, m | v in G' && 0 <= v < |nb| && m in nb[v] && 0 <= m < |b| && b[m] == c
        ensures m in G'
      {
        assert v in G;
        assert m in G;
        assert b'[m] == c;
      }
    }
    GroupHasStart(b', nb, n, c);
    GroupWithin(b, nb, n, c, G');
    assert Liberties(b', nb, G) == Liberties(b, nb, G);
  }

  /** Emptying `D` and then `G` empties `D + G`. */
  lemma ClearCellsTwice(b: seq<int>, D: set<int>, G: set<int>)
    ensures ClearCells(ClearCells(b, D), G) == ClearCells(b, D + G)
  {
  }

  /** A group seeded at a stone of colour `c` is made of stones of colour `c`. */
  lemma GroupAllOfColour(b: seq<int>, nb: seq<seq<int>>, s: int, c: int)
    requires 0 <= s < |b| && b[s] == c
    ensures AllOfColour(b, c, Group(b, nb, s, c))
  {
    forall v | v in Group(b, nb, s, c) ensures 0 <= v < |b| && b[v] == c {
      if v != s {
        GroupColoured(b, nb, s, c, v);
      }
    }
  }

  /** A dead group at a listed cell lies inside the dead set of the list. */
  lemma DeadGroupInside(b: seq<int>, nb: seq<seq<int>>, cells: seq<int>, opp: int, n: int)
    requires n in cells && DeadAt(b, nb, n, opp)
    ensures Group(b, nb, n, opp) <= DeadAround(b, nb, cells, opp)
  {
    forall v | v in Group(b, nb, n, opp) ensures v in DeadAround(b, nb, cells, opp) {
      if v != n {
        GroupColoured(b, nb, n, opp, v);
      }
      assert InDeadGroup(b, nb, cells, opp, v);
    }
  }

  /** The dead set is made of whole groups of colour `opp`. */
  lemma DeadAroundShape(b: seq<int>, nb: seq<seq<int>>, cells: seq<int>, opp: int)
    ensures Closed(b, nb, opp, DeadAround(b, nb, cells, opp))
    ensures AllOfColour(b, opp, DeadAround(b, nb, cells, opp))
  {
    var D := DeadAround(b, nb, cells, opp);
    forall v, m | v in D && 0 <= v < |nb| && m in nb[v] && 0 <= m < |b| && b[m] == opp
      ensures m in D
    {
      var n :| n in cells && DeadAt(b, nb, n, opp) && v in Group(b, nb, n, opp);
      GroupIsClosed(b, nb, n, opp);
      assert InDeadGroup(b, nb, cells, opp, m);
    }
    forall v | v in D ensures 0 <= v < |b| && b[v] == opp {
      var n :| n in cells && DeadAt(b, nb, n, opp) && v in Group(b, nb, n, opp);
      if v != n {
        GroupColoured(b, nb, n, opp, v);
      }
    }
  }

  /**
   * The dead set depends only on which cells are listed, not their order,
   * and on which neighbours each cell has.
   */
  lemma SameDeadAround(b: seq<int>, nb1: seq<seq<int>>, nb2: seq<seq<int>>, cells1: seq<int>, cells2: seq<int>, opp: int)
    requires SameNeighbours(nb1, nb2)
    requires forall n :: n in cells1 <==> n in cells2
    ensures DeadAround(b, nb1, cells1, opp) == DeadAround(b, nb2, cells2, opp)
  {
    forall n | n in cells1
      ensures Group(b, nb1, n, opp) == Group(b, nb2, n, opp)
      ensures DeadAt(b, nb1, n, opp) <==> DeadAt(b, nb2, n, opp)
    {
      SameNeighboursSameGroup(b, nb1, nb2, n, opp);
    }
    forall v ensures InDeadGroup(b, nb1, cells1, opp, v) <==> InDeadGroup(b, nb2, cells2, opp, v) {
      if InDeadGroup(b, nb1, cells1, opp, v) {
        var n :| n in cells1 && DeadAt(b, nb1, n, opp) && v in Group(b, nb1, n, opp);
        assert InDeadGroup(b, nb2, cells2, opp, v);
      }
      if InDeadGroup(b, nb2, cells2, opp, v) {
        var n :| n in cells2 && DeadAt(b, nb2, n, opp) && v in Group(b, nb2, n, opp);
        assert InDeadGroup(b, nb1, cells1, opp, v);
      }
    }
  }

  /** A sweep over no cells finds nothing dead and leaves the board alone. */
  lemma SweepStart(b: seq<int>, nb: seq<seq<int>>, cells: seq<int>, opp: int)
    ensures DeadAround(b, nb, cells[..0], opp) == {}
    ensures ClearCells(b, {}) == b
  {
    assert cells[..0] == [];
  }

  /**
   * One step of a capture sweep over the listed cells: after the dead
   * groups at `cells[..j]` are emptied, the cell `cells[j]` still shows
   * colour `opp` exactly when it is outside them and had that colour; its
   * group and liberties on the swept board are those of the original board;
   * and the dead set grows by that group when it is dead, and not at all
   * otherwise.
   */
  lemma SweepStep(b: seq<int>, nb: seq<seq<int>>, cells: seq<int>, opp: int, j: nat)
    requires TableSymmetric(nb) && |b| == |nb| && opp != EMPTY
    requires j < |cells| && 0 <= cells[j] < |b|
    ensures var D := DeadAround(b, nb, cells[..j], opp);
            var b' := ClearCells(b, D);
            var n := cells[j];
            && (b'[n] == opp <==> n !in D && b[n] == opp)
            && (b'[n] == opp ==>
                  && Group(b', nb, n, opp) == Group(b, nb, n, opp)
                  && Liberties(b', nb, Group(b', nb, n, opp)) == Liberties(b, nb, Group(b, nb, n, opp))
                  && D !! Group(b, nb, n, opp))
            && DeadAround(b, nb, cells[..j + 1], opp)
                 == if b'[n] == opp && DeadAt(b, nb, n, opp) then D + Group(b, nb, n, opp) else D
  {
    var D := DeadAround(b, nb, cells[..j], opp);
    var b' := ClearCells(b, D);
    var n := cells[j];
    var G := Group(b, nb, n, opp);
    DeadAroundShape(b, nb, cells[..j], opp);
    if b'[n] == opp {
      ClearKeepsGroup(b, nb, D, n, opp);
      forall v | v in G ensures v !in D {
        if v in D {
          MeetsGroupHoldsSeed(b, nb, n, opp, D, v);
        }
      }
    }
    var D' := DeadAround(b, nb, cells[..j + 1], opp);
    assert cells[..j + 1] == cells[..j] + [n];
    forall v ensures v in D' <==> v in (if b'[n] == opp && DeadAt(b, nb, n, opp) then D + G else D) {
      if v in D' {
        var m :| m in cells[..j + 1] && DeadAt(b, nb, m, opp) && v in Group(b, nb, m, opp);
        if m != n || !(m in cells[..j]) {
          if m in cells[..j] {
            assert InDeadGroup(b, nb, cells[..j], opp, v);
          } else {
            assert m == n;
            if b'[n] != opp {
              // n is already inside D: its group is the dead group that holds it
              assert n in D;
              var m' :| m' in cells[..j] && DeadAt(b, nb, m', opp) && n in Group(b, nb, m', opp);
              SameGroup(b, nb, m', opp, n);
              assert InDeadGroup(b, nb, cells[..j], opp, v);
            }
          }
        } else {
          assert InDeadGroup(b, nb, cells[..j], opp, v);
        }
      }
      if v in D {
        var m :| m in cells[..j] && DeadAt(b, nb, m, opp) && v in Group(b, nb, m, opp);
        assert m in cells[..j + 1];
        assert InDeadGroup(b, nb, cells[..j + 1], opp, v);
      }
      if b'[n] == opp && DeadAt(b, nb, n, opp) && v in G {
        assert n in cells[..j + 1];
        assert InDeadGroup(b, nb, cells[..j + 1], opp, v);
      }
    }
  }
}
