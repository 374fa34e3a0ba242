/**
 * The server's rules engine (app/game_state.py): a Go board stored as a
 * flat list of size * size cell codes, the move rules (liberties, capture,
 * suicide, the ko check), passes and resignation, territory scoring and the
 * dictionary form the server stores.
 */
module Engine {
  import opened Wrappers
  import opened Grid
  import opened Groups

  datatype Stone = Empty | Black | White {
    /** The cell code the board stores for this stone. */
    function Value(): int {
      match this
      case Empty => 0
      case Black => 1
      case White => 2
    }
  }

  /** The colour a player moves with. */
  type Colour = s: Stone | s != Empty witness Black

  /** `Stone(v)`: the enum member with value `v`; any other value is an error. */
  function StoneOf(v: int): (r: Option<Stone>)
    ensures r.Some? <==> 0 <= v <= 2
    ensures r.Some? ==> r.value.Value() == v
  {
    if v == 0 then Some(Empty) else if v == 1 then Some(Black) else if v == 2 then Some(White) else None
  }

  /** The colour that answers `colour`: White answers Black and everything else. */
  function Opponent(colour: Stone): (r: Colour)
    ensures colour != Empty ==> r != colour
    ensures r == Black <==> colour == White
  {
    if colour == White then Black else White
  }

  /** get_adjacent_indices keeps a candidate that is on the board and whose
      column is at most one away from the column of `index`. */
  predicate Kept(size: nat, index: int, n: int) {
    0 <= n < size * size && Abs(index % size - n % size) <= 1
  }

  /** The candidates `index + d` for the directions `dirs`, in order, that get_adjacent_indices keeps. */
  function KeepNeighbours(size: nat, index: int, dirs: seq<int>): (r: seq<int>)
    ensures |r| <= |dirs|
  {
    if dirs == [] then []
    else
      var last := |dirs| - 1;
      var n := index + dirs[last];
      KeepNeighbours(size, index, dirs[..last]) + (if Kept(size, index, n) then [n] else [])
  }

  lemma {:induction false} KeepNeighboursMembers(size: nat, index: int, dirs: seq<int>)
    ensures forall n :: n in KeepNeighbours(size, index, dirs) <==>
              exists k :: 0 <= k < |dirs| && n == index + dirs[k] && Kept(size, index, n)
    decreases |dirs|
  {
    if dirs != [] {
      var last := |dirs| - 1;
      KeepNeighboursMembers(size, index, dirs[..last]);
      forall m | exists k :: 0 <= k < last && m == index + dirs[k] && Kept(size, index, m)
        ensures exists k :: 0 <= k < last && m == index + dirs[..last][k] && Kept(size, index, m) {
        var k :| 0 <= k < last && m == index + dirs[k] && Kept(size, index, m);
        assert dirs[..last][k] == dirs[k];
      }
    }
  }

  /** get_adjacent_indices: the kept candidates among index - size, index + size, index - 1, index + 1. */
  function Neighbours(size: nat, index: int): (r: seq<int>)
    ensures |r| <= 4
  {
    KeepNeighbours(size, index, [-(size as int), size as int, -1, 1])
  }

  /** A cell is listed exactly when it is one step away in some direction and the column test keeps it. */
  lemma NeighboursMembers(size: nat, index: int)
    ensures forall n :: n in Neighbours(size, index) <==>
              (n == index - size || n == index + size || n == index - 1 || n == index + 1) && Kept(size, index, n)
  {
    var dirs := [-(size as int), size as int, -1, 1];
    KeepNeighboursMembers(size, index, dirs);
    forall n | (n == index - size || n == index + size || n == index - 1 || n == index + 1) && Kept(size, index, n)
      ensures exists k :: 0 <= k < |dirs| && n == index + dirs[k] && Kept(size, index, n) {
      if n == index - size { assert n == index + dirs[0]; }
      else if n == index + size { assert n == index + dirs[1]; }
      else if n == index - 1 { assert n == index + dirs[2]; }
      else { assert n == index + dirs[3]; }
    }
  }

  /** Every listed neighbour is a cell of the board. */
  lemma NeighboursInBounds(size: nat, index: int)
    ensures forall j :: 0 <= j < |Neighbours(size, index)| ==> 0 <= Neighbours(size, index)[j] < size * size
  {
    var r := Neighbours(size, index);
    NeighboursMembers(size, index);
    forall j | 0 <= j < |r| ensures 0 <= r[j] < size * size {
      assert r[j] in r;
      assert Kept(size, index, r[j]);
    }
  }

  lemma NeighboursOrthogonal(size: nat, index: int)
    requires size > 0 && size != 2 && 0 <= index < size * size
    ensures forall n :: n in Neighbours(size, index) <==> Orthogonal(size, index, n)
  {
    NeighboursMembers(size, index);
    RightStep(size, index);
    LeftStep(size, index);
    DownStep(size, index);
    UpStep(size, index);
    forall j | Orthogonal(size, index, j)
      ensures j == index - size || j == index + size || j == index - 1 || j == index + 1
    {
      OrthogonalIsStep(size, index, j);
    }
  }

  lemma RightStep(size: nat, index: int)
    requires size > 0 && size != 2 && 0 <= index < size * size
    ensures Kept(size, index, index + 1) <==> Orthogonal(size, index, index + 1)
  {
    CellBounds(index, size);
    if index % size < size - 1 {
      RightInRow(size, index);
    } else {
      RightWraps(size, index);
    }
  }

  /** Away from the right edge, the next index is the next cell of the row, and both tests keep it. */
  lemma RightInRow(size: nat, index: int)
    requires size > 0 && 0 <= index < size * size && index % size < size - 1
    ensures Kept(size, index, index + 1) && Orthogonal(size, index, index + 1)
  {
    var x, y := index % size, index / size;
    CellBounds(index, size);
    DivMod(index + 1, size, y, x + 1);
    CellOf(size, x + 1, y);
    assert Abs(x - (x + 1)) == 1;
  }

  /** On the right edge of a board other than 2 x 2, the next index is dropped by both tests. */
  lemma RightWraps(size: nat, index: int)
    requires size > 0 && size != 2 && 0 <= index < size * size && index % size == size - 1
    ensures !Kept(size, index, index + 1) && !Orthogonal(size, index, index + 1)
  {
    var x, y := index % size, index / size;
    CellBounds(index, size);
    assert index == y * size + x;
    DivMod(index + 1, size, y + 1, 0);
    if size == 1 {
      assert index == 0 && index + 1 == size * size;
    } else {
      assert Abs(x - 0) == size - 1 > 1;
      assert !(0 == x + 1 || 0 + 1 == x);
    }
  }

  lemma LeftStep(size: nat, index: int)
    requires size > 0 && size != 2 && 0 <= index < size * size
    ensures Kept(size, index, index - 1) <==> Orthogonal(size, index, index - 1)
  {
    var x, y := index % size, index / size;
    CellBounds(index, size);
    if x > 0 {
      DivMod(index - 1, size, y, x - 1);
    } else if y > 0 {
      DivMod(index - 1, size, y - 1, size - 1);
    }
  }

  lemma DownStep(size: nat, index: int)
    requires size > 0 && 0 <= index < size * size
    ensures Kept(size, index, index + size) <==> Orthogonal(size, index, index + size)
  {
    var x, y := index % size, index / size;
    CellBounds(index, size);
    DivMod(index + size, size, y + 1, x);
    if y < size - 1 {
      CellOf(size, x, y + 1);
    } else {
      assert y + 1 == size;
      assert index + size == size * size + x;
    }
  }

  lemma UpStep(size: nat, index: int)
    requires size > 0 && 0 <= index < size * size
    ensures Kept(size, index, index - size) <==> Orthogonal(size, index, index - size)
  {
    var x, y := index % size, index / size;
    CellBounds(index, size);
    DivMod(index - size, size, y - 1, x);
  }

  lemma WrapOnTwoByTwo()
    ensures 1 in Neighbours(2, 2) && !Orthogonal(2, 2, 1)
  {
    NeighboursMembers(2, 2);
  }

  /** The neighbour lists of every cell of a board of the given size. */
  function Table(size: nat): (nb: seq<seq<int>>)
    ensures |nb| == size * size
    ensures forall i :: 0 <= i < size * size ==> nb[i] == Neighbours(size, i)
  {
    seq(size * size, i requires 0 <= i < size * size => Neighbours(size, i))
  }

  lemma TableShape(size: nat)
    ensures TableInBounds(Table(size)) && TableSymmetric(Table(size))
  {
    var nb := Table(size);
    forall i | 0 <= i < |nb| ensures forall j :: j in nb[i] ==> 0 <= j < |nb| {
      NeighboursMembers(size, i);
    }
    forall i, j | 0 <= i < |nb| && 0 <= j < |nb| && j in nb[i] ensures i in nb[j] {
      NeighboursMembers(size, i);
      NeighboursMembers(size, j);
      assert Abs(j % size - i % size) == Abs(i % size - j % size);
    }
  }

  /** The cells of a board of `n` cells. */
  ghost function Cells(n: nat): (r: set<int>)
    ensures forall i :: i in r <==> 0 <= i < n
  {
    var indices := seq(n, j => j);
    forall i | 0 <= i < n ensures i in indices {
      assert indices[i] == i;
    }
    set i | i in indices
  }

  /**
   * A flood fill has dealt with cell `n`: it is visited, or it is an empty
   * cell already counted as a liberty, or it is a stone of another colour.
   */
  ghost predicate Settled(b: seq<int>, c: int, visited: set<int>, liberties: set<int>, n: int)
    requires 0 <= n < |b|
  {
    n in visited || (b[n] == EMPTY && n in liberties) || (b[n] != EMPTY && b[n] != c)
  }

  /**
   * When no cell is left on the stack, a flood fill that has settled every
   * neighbour of every visited cell has visited the whole group, and the
   * liberties it collected are exactly the group's liberties.
   */
  lemma FillComplete(b: seq<int>, nb: seq<seq<int>>, s: int, c: int, visited: set<int>, liberties: set<int>)
    requires TableInBounds(nb) && |b| == |nb| && c != EMPTY
    requires visited <= Group(b, nb, s, c) && s in visited
    requires forall v, n :: v in visited && n in nb[v] ==> 0 <= n < |b| && Settled(b, c, visited, liberties, n)
    requires forall n :: n in liberties ==> 0 <= n < |b| && b[n] == EMPTY && n !in visited && Touches(nb, visited, n)
    ensures visited == Group(b, nb, s, c)
    ensures liberties == Liberties(b, nb, visited)
  {
    forall v, n | v in visited && 0 <= v < |nb| && n in nb[v] && 0 <= n < |b| && b[n] == c
      ensures n in visited
    {
      assert Settled(b, c, visited, liberties, n);
    }
    GroupWithin(b, nb, s, c, visited);
    forall n | n in Liberties(b, nb, visited) ensures n in liberties {
      var v :| v in visited && 0 <= v < |nb| && n in nb[v];
      assert Settled(b, c, visited, liberties, n);
    }
  }

  /** Some neighbour of `index` on board `b` holds a stone of colour `opp` whose group has no liberty. */
  ghost predicate Captures(b: seq<int>, size: nat, index: int, opp: int) {
    AnyDead(b, Table(size), Neighbours(size, index), opp)
  }

  /** Some listed cell holds a stone of colour `opp` whose group has no liberty. */
  ghost predicate AnyDead(b: seq<int>, nb: seq<seq<int>>, cells: seq<int>, opp: int) {
    exists n :: n in cells && DeadAt(b, nb, n, opp)
  }

  lemma AnyDeadStep(b: seq<int>, nb: seq<seq<int>>, cells: seq<int>, opp: int, k: nat)
    requires k < |cells|
    ensures AnyDead(b, nb, cells[..k + 1], opp) <==> AnyDead(b, nb, cells[..k], opp) || DeadAt(b, nb, cells[k], opp)
  {
    assert cells[..k + 1] == cells[..k] + [cells[k]];
  }

  /**
   * is_suicidal's test for an empty cell: the group the new stone joins
   * (the cell with its same-coloured neighbours' groups) has no liberty on
   * the current board, and placing the stone captures nothing.
   */
  ghost predicate Suicidal(b: seq<int>, size: nat, index: int, colour: Colour)
    requires 0 <= index < |b|
  {
    && Liberties(b, Table(size), Group(b, Table(size), index, colour.Value())) == {}
    && !Captures(b[index := colour.Value()], size, index, Opponent(colour).Value())
  }

  /** The cells of `G` that hold colour `c` on board `b`. */
  ghost function StonesIn(b: seq<int>, G: set<int>, c: int): set<int> {
    set i | i in G && 0 <= i < |b| && b[i] == c
  }

  lemma StonesInAdd(b: seq<int>, G: set<int>, i: int, c: int)
    requires i !in G && 0 <= i < |b|
    ensures |StonesIn(b, G + {i}, c)| == |StonesIn(b, G, c)| + (if b[i] == c then 1 else 0)
  {
    if b[i] == c {
      assert StonesIn(b, G + {i}, c) == StonesIn(b, G, c) + {i};
    } else {
      assert StonesIn(b, G + {i}, c) == StonesIn(b, G, c);
    }
  }

  /** A set of stone colours with one member is one of the two colours alone. */
  lemma OneColour(border: set<int>)
    requires border <= {BLACK, WHITE} && |border| == 1
    ensures border == {BLACK} || border == {WHITE}
  {
    if BLACK in border {
      assert |border - {BLACK}| == 0;
    } else if WHITE in border {
      assert |border - {WHITE}| == 0;
    } else {
      assert false;
    }
  }

  /**
   * The owner of the empty region around `v`: the colour of the stones
   * that border it when they all have one colour, and EMPTY otherwise.
   */
  ghost function TerritoryOwner(b: seq<int>, nb: seq<seq<int>>, v: int): int {
    var border := BorderColours(b, nb, Group(b, nb, v, EMPTY));
    if border == {BLACK} then BLACK else if border == {WHITE} then WHITE else EMPTY
  }

  /** The empty cells that count as territory of colour `c`. */
  ghost function Territory(b: seq<int>, nb: seq<seq<int>>, c: int): set<int> {
    set v | 0 <= v < |b| && b[v] == EMPTY && TerritoryOwner(b, nb, v) == c
  }

  /**
   * count_territory has dealt with cell `n`: it is visited, or it is a
   * stone whose colour is already recorded as bordering the region.
   */
  ghost predicate Explored(b: seq<int>, visited: set<int>, border: set<int>, n: int)
    requires 0 <= n < |b|
  {
    n in visited || (b[n] != EMPTY && b[n] in border)
  }

  /**
   * When count_territory's stack is empty, the region it popped is the
   * whole empty group of `start`, and the colours it recorded are exactly
   * the colours bordering that group.
   */
  lemma TerritoryComplete(b: seq<int>, nb: seq<seq<int>>, start: int, visited0: set<int>,
                          region: set<int>, border: set<int>, cells: set<int>)
    requires TableInBounds(nb) && TableSymmetric(nb) && |b| == |nb|
    requires 0 <= start < |b| && b[start] == EMPTY && start in region
    requires Closed(b, nb, EMPTY, visited0) && AllOfColour(b, EMPTY, visited0)
    requires region <= Group(b, nb, start, EMPTY) && visited0 !! Group(b, nb, start, EMPTY)
    requires forall v, n :: v in region && n in nb[v] ==> 0 <= n < |b| && Explored(b, visited0 + region, border, n)
    requires border == Colours(b, cells)
    requires forall n :: n in cells ==> 0 <= n < |b| && b[n] != EMPTY && Touches(nb, region, n)
    ensures region == Group(b, nb, start, EMPTY)
    ensures border == BorderColours(b, nb, region)
  {
    var G := Group(b, nb, start, EMPTY);
    GroupAllOfColour(b, nb, start, EMPTY);
    forall v, n | v in region && 0 <= v < |nb| && n in nb[v] && 0 <= n < |b| && b[n] == EMPTY
      ensures n in region
    {
      assert Explored(b, visited0 + region, border, n);
    }
    GroupWithin(b, nb, start, EMPTY, region);
    forall x | x in BorderColours(b, nb, region) ensures x in border {
      var n :| 0 <= n < |b| && b[n] != EMPTY && Touches(nb, region, n) && b[n] == x;
      var v :| v in region && 0 <= v < |nb| && n in nb[v];
      assert Explored(b, visited0 + region, border, n);
    }
    forall x | x in border ensures x in BorderColours(b, nb, region) {
      var n :| n in cells && 0 <= n < |b| && b[n] == x;
    }
  }

  /** count_territory's loop keeps every neighbour of the popped cells explored. */
  lemma RegionExplored(b: seq<int>, nb: seq<seq<int>>, current: int, region: set<int>,
                       visitedBefore: set<int>, borderBefore: set<int>, visited: set<int>, border: set<int>)
    requires TableInBounds(nb) && |b| == |nb| && 0 <= current < |nb| && current in region
    requires forall v :: v in region ==> 0 <= v < |nb|
    requires forall v, n :: v in region - {current} && n in nb[v] ==> Explored(b, visitedBefore, borderBefore, n)
    requires visitedBefore <= visited && borderBefore <= border
    requires forall j :: 0 <= j < |nb[current]| ==> 0 <= nb[current][j] < |b| && Explored(b, visited, border, nb[current][j])
    ensures forall v, n :: v in region && n in nb[v] ==> Explored(b, visited, border, n)
  {
    forall v, n | v in region && n in nb[v] ensures Explored(b, visited, border, n) {
      if v != current {
        assert Explored(b, visitedBefore, borderBefore, n);
      } else {
        var j :| 0 <= j < |nb[current]| && nb[current][j] == n;
      }
    }
  }

  /**
   * The state of count_territory's flood fill from `start`: the cells it
   * visited beyond `visited0` are empty cells of the group, each popped into
   * `region` or waiting on the stack; every neighbour of a popped cell is
   * visited or has its colour recorded; `border` holds the colours of the
   * stones `cells` that touch the region.
   */
  ghost predicate Filling(b: seq<int>, nb: seq<seq<int>>, start: int, visited0: set<int>, stack: seq<int>,
                          visited: set<int>, region: set<int>, border: set<int>, cells: set<int>)
    requires TableInBounds(nb) && |b| == |nb|
  {
    var G := Group(b, nb, start, EMPTY);
    && visited0 <= visited && start in visited && (forall v :: v in visited && v !in visited0 ==> v in G)
    && (forall v :: (v in visited && v !in visited0) <==> v in region || v in stack)
    && region <= G
    && (forall v, n :: v in region && 0 <= v < |b| && n in nb[v] ==> Explored(b, visited, border, n))
    && border == Colours(b, cells)
    && (forall n :: n in cells ==> 0 <= n < |b| && b[n] != EMPTY && Touches(nb, region, n))
  }

  /** The fill starts with `start` visited and on the stack. */
  lemma FillStart(b: seq<int>, nb: seq<seq<int>>, start: int, visited0: set<int>)
    requires TableInBounds(nb) && |b| == |nb| && 0 <= start < |b| && start !in visited0
    ensures Filling(b, nb, start, visited0, [start], visited0 + {start}, {}, {}, {})
  {
    GroupHasStart(b, nb, start, EMPTY);
  }

  /**
   * When the stack is empty, the fill has visited exactly the empty group of
   * `start`, popped all of it, and recorded exactly the colours around it.
   */
  lemma FillDone(b: seq<int>, nb: seq<seq<int>>, start: int, visited0: set<int>, visited: set<int>,
                 region: set<int>, border: set<int>, cells: set<int>)
    requires TableInBounds(nb) && TableSymmetric(nb) && |b| == |nb|
    requires 0 <= start < |b| && b[start] == EMPTY && start !in visited0
    requires Closed(b, nb, EMPTY, visited0) && AllOfColour(b, EMPTY, visited0)
    requires Filling(b, nb, start, visited0, [], visited, region, border, cells)
    ensures visited0 !! Group(b, nb, start, EMPTY)
    ensures region == Group(b, nb, start, EMPTY) && visited == visited0 + region
    ensures border == BorderColours(b, nb, region)
  {
    var G := Group(b, nb, start, EMPTY);
    GroupAllOfColour(b, nb, start, EMPTY);
    forall w | w in G ensures w !in visited0 {
      if w in visited0 {
        MeetsGroupHoldsSeed(b, nb, start, EMPTY, visited0, w);
      }
    }
    assert visited == visited0 + region by {
      forall v ensures v in visited <==> v in visited0 || v in region {
        assert v !in [];
      }
    }
    forall v, n | v in region && n in nb[v] ensures 0 <= n < |b| && Explored(b, visited0 + region, border, n) {
      GroupWithin(b, nb, start, EMPTY, Cells(|b|));
    }
    TerritoryComplete(b, nb, start, visited0, region, border, cells);
  }

  /**
   * The colours bordering the empty group of `start` decide its owner: a
   * single colour owns it, anything else leaves it neutral.
   */
  lemma OwnerOfBorder(b: seq<int>, nb: seq<seq<int>>, start: int, border: set<int>)
    requires forall i :: 0 <= i < |b| ==> 0 <= b[i] <= 2
    requires border == BorderColours(b, nb, Group(b, nb, start, EMPTY))
    ensures |border| == 1 ==> border == {TerritoryOwner(b, nb, start)}
    ensures |border| != 1 ==> TerritoryOwner(b, nb, start) == EMPTY
  {
    assert border <= {BLACK, WHITE};
    if |border| == 1 {
      OneColour(border);
    } else {
      assert border != {BLACK} && border != {WHITE};
    }
  }

  /** Every stone whose colour count_territory records borders a popped cell. */
  lemma BorderTouches(b: seq<int>, nb: seq<seq<int>>, current: int, regionBefore: set<int>, region: set<int>,
                      cellsBefore: set<int>, cells: set<int>)
    requires |b| == |nb| && 0 <= current < |nb| && current in region && regionBefore <= region
    requires forall n :: n in cellsBefore ==> 0 <= n < |b| && b[n] != EMPTY && Touches(nb, regionBefore, n)
    requires forall n :: n in cells && n !in cellsBefore ==> n in nb[current] && 0 <= n < |b| && b[n] != EMPTY
    requires cellsBefore <= cells
    ensures forall n :: n in cells ==> 0 <= n < |b| && b[n] != EMPTY && Touches(nb, region, n)
  {
    forall n | n in cells ensures 0 <= n < |b| && b[n] != EMPTY && Touches(nb, region, n) {
      if n in cellsBefore {
        var v :| v in regionBefore && 0 <= v < |nb| && n in nb[v];
      } else {
        assert n in cells && n !in cellsBefore;
      }
    }
  }

  /**
   * Adding the empty group of `i` to the visited cells keeps them a closed
   * set of empty cells, and adds the group to its owner's territory count.
   */
  lemma RegionScored(b: seq<int>, nb: seq<seq<int>>, i: int, visited0: set<int>)
    requires TableInBounds(nb) && TableSymmetric(nb) && |b| == |nb|
    requires 0 <= i < |b| && b[i] == EMPTY && visited0 !! Group(b, nb, i, EMPTY)
    requires Closed(b, nb, EMPTY, visited0) && AllOfColour(b, EMPTY, visited0)
    ensures var visited := visited0 + Group(b, nb, i, EMPTY);
            && Closed(b, nb, EMPTY, visited) && AllOfColour(b, EMPTY, visited) && i in visited
            && |Territory(b, nb, BLACK) * visited| == |Territory(b, nb, BLACK) * visited0|
                 + (if TerritoryOwner(b, nb, i) == BLACK then |Group(b, nb, i, EMPTY)| else 0)
            && |Territory(b, nb, WHITE) * visited| == |Territory(b, nb, WHITE) * visited0|
                 + (if TerritoryOwner(b, nb, i) == WHITE then |Group(b, nb, i, EMPTY)| else 0)
  {
    var G := Group(b, nb, i, EMPTY);
    RegionStep(b, nb, i, visited0, BLACK);
    RegionStep(b, nb, i, visited0, WHITE);
    GroupIsClosed(b, nb, i, EMPTY);
    ClosedUnion(b, nb, EMPTY, visited0, G);
    GroupAllOfColour(b, nb, i, EMPTY);
    GroupHasStart(b, nb, i, EMPTY);
  }

  /** score_game's scan has passed cell `j`: when empty, it has been visited. */
  ghost predicate Scanned(b: seq<int>, visited: set<int>, j: int)
    requires 0 <= j < |b|
  {
    b[j] == EMPTY ==> j in visited
  }

  /** Visiting more cells keeps the scanned prefix scanned and extends it by `i` once `i` is dealt with. */
  lemma ScanStep(b: seq<int>, i: int, visited0: set<int>, visited: set<int>)
    requires 0 <= i < |b| && visited0 <= visited && (b[i] == EMPTY ==> i in visited)
    requires forall j :: 0 <= j < i ==> Scanned(b, visited0, j)
    ensures forall j :: 0 <= j < i + 1 ==> Scanned(b, visited, j)
  {
    forall j | 0 <= j < i + 1 ensures Scanned(b, visited, j) {
      if j < i {
        assert Scanned(b, visited0, j);
      }
    }
  }

  /** Once every empty cell is visited, the visited cells hold the whole territory of `c`. */
  lemma TerritoryCovered(b: seq<int>, nb: seq<seq<int>>, visited: set<int>, c: int)
    requires forall j :: 0 <= j < |b| ==> Scanned(b, visited, j)
    ensures Territory(b, nb, c) * visited == Territory(b, nb, c)
  {
    forall v | v in Territory(b, nb, c) ensures v in visited {
      assert Scanned(b, visited, v);
    }
  }

  /**
   * Adding the empty group of `i` to the cells scored so far adds the whole
   * group to the territory of its owner, and nothing to any other colour.
   */
  lemma RegionStep(b: seq<int>, nb: seq<seq<int>>, i: int, before: set<int>, c: int)
    requires TableSymmetric(nb) && |b| == |nb|
    requires 0 <= i < |b| && b[i] == EMPTY && before !! Group(b, nb, i, EMPTY)
    ensures |Territory(b, nb, c) * (before + Group(b, nb, i, EMPTY))|
         == |Territory(b, nb, c) * before| + (if TerritoryOwner(b, nb, i) == c then |Group(b, nb, i, EMPTY)| else 0)
  {
    var G := Group(b, nb, i, EMPTY);
    var T := Territory(b, nb, c);
    GroupAllOfColour(b, nb, i, EMPTY);
    forall v | v in G ensures TerritoryOwner(b, nb, v) == TerritoryOwner(b, nb, i) {
      SameGroup(b, nb, i, EMPTY, v);
    }
    assert T * G == if TerritoryOwner(b, nb, i) == c then G else {};
    assert T * (before + G) == T * before + T * G;
  }

  /**
   * Capturing stones of colour `opp` never removes a stone of another
   * colour: in particular the stone just played stays on the board.
   */
  lemma CaptureKeepsOthers(b: seq<int>, nb: seq<seq<int>>, cells: seq<int>, opp: int)
    ensures forall i :: 0 <= i < |b| && b[i] != opp ==> ClearCells(b, DeadAround(b, nb, cells, opp))[i] == b[i]
    ensures forall i :: 0 <= i < |b| && b[i] == opp ==>
              ClearCells(b, DeadAround(b, nb, cells, opp))[i] in {opp, EMPTY}
  {
    DeadAroundShape(b, nb, cells, opp);
  }

  /** The final score score_game computes: territory plus prisoners taken, black first. */
  ghost function FinalScore(b: seq<int>, size: nat, capturedBlack: int, capturedWhite: int): (int, int) {
    (|Territory(b, Table(size), BLACK)| + capturedWhite, |Territory(b, Table(size), WHITE)| + capturedBlack)
  }

  /** A seat of the `players` dictionary: a player id and the colour code it plays. */
  datatype Seat = Seat(id: string, colour: int)

  /** The id of the first seat, in insertion order, that plays colour code `c`. */
  function FirstWithColour(players: seq<Seat>, c: int): (r: Option<string>)
    ensures r.None? <==> forall k :: 0 <= k < |players| ==> players[k].colour != c
    ensures r.Some? ==> exists k :: 0 <= k < |players| && players[k] == Seat(r.value, c)
                                    && forall j :: 0 <= j < k ==> players[j].colour != c
  {
    if players == [] then None
    else if players[0].colour == c then Some(players[0].id)
    else
      var r := FirstWithColour(players[1..], c);
      assert forall k :: 0 < k < |players| ==> players[k] == players[1..][k - 1];
      r
  }

  /** The id of the first seat, in insertion order, whose id is not `id`. */
  function FirstOther(players: seq<Seat>, id: string): (r: Option<string>)
    ensures r.None? <==> forall k :: 0 <= k < |players| ==> players[k].id == id
    ensures r.Some? ==> r.value != id
    ensures r.Some? ==> exists k :: 0 <= k < |players| && players[k].id == r.value
                                    && forall j :: 0 <= j < k ==> players[j].id == id
  {
    if players == [] then None
    else if players[0].id != id then Some(players[0].id)
    else
      var r := FirstOther(players[1..], id);
      assert forall k :: 0 < k < |players| ==> players[k] == players[1..][k - 1];
      r
  }

  /** end_game's test for a resignation: the reason is "resign" and the resigning id is a non-empty string. */
  predicate Resigns(reason: string, resigned: Option<string>) {
    reason == "resign" && resigned.Some? && resigned.value != ""
  }

  /**
   * The winner after a double pass: nobody on a tie; otherwise the first
   * player seated with the colour that scored more, or the previous winner
   * when no seat has that colour.
   */
  function Victor(players: seq<Seat>, score: (int, int), previous: Option<string>): (r: Option<string>)
    ensures score.0 == score.1 ==> r == None
    ensures score.0 != score.1 && r != previous ==>
              r.Some? && exists k :: 0 <= k < |players| && players[k].id == r.value
                                    && players[k].colour == (if score.0 > score.1 then BLACK else WHITE)
    ensures score.0 != score.1 && r == previous ==>
              (forall k :: 0 <= k < |players| ==> players[k].colour != (if score.0 > score.1 then BLACK else WHITE))
              || exists k :: 0 <= k < |players| && previous == Some(players[k].id)
                            && players[k].colour == (if score.0 > score.1 then BLACK else WHITE)
  {
    if score.0 == score.1 then None
    else
      var colour := if score.0 > score.1 then Stone.Black else Stone.White;
      match FirstWithColour(players, colour.Value())
      case Some(id) => Some(id)
      case None => previous
  }

  /** The stored form of a game: to_dict's keys, with current_turn as its stone code. */
  datatype GameDict = GameDict(
    boardSize: nat,
    players: seq<Seat>,
    boardState: seq<int>,
    previousState: seq<int>,
    twoMovesAgoState: seq<int>,
    currentTurn: int,
    consecutivePasses: int,
    gameOver: bool,
    gameOverReason: Option<string>,
    resignedPlayer: Option<string>,
    capturedBlack: int,
    capturedWhite: int,
    winner: Option<string>,
    finalScore: Option<(int, int)>)

  class GameState {
    var boardSize: nat
    /** The `players` dictionary as a list of (id, colour) seats, in insertion order. */
    var players: seq<Seat>
    var board: seq<int>
    var previous: seq<int>
    var twoMovesAgo: seq<int>
    var currentTurn: Stone
    var consecutivePasses: int
    var capturedBlack: int
    var capturedWhite: int
    var gameOver: bool
    var winner: Option<string>
    var finalScore: Option<(int, int)>
    var gameOverReason: Option<string>
    var resignedPlayer: Option<string>

    /** The board has size * size cells, each holding a stone code. */
    ghost predicate Valid()
      reads this
    {
      && |board| == boardSize * boardSize
      && forall i :: 0 <= i < |board| ==> 0 <= board[i] <= 2
    }

    /** The neighbour table of this board. */
    ghost function Nb(): seq<seq<int>>
      reads this
    {
      Table(boardSize)
    }

    constructor(size: nat)
      ensures Valid()
      ensures boardSize == size && players == []
      ensures |board| == size * size && forall i :: 0 <= i < |board| ==> board[i] == EMPTY
      ensures previous == board && twoMovesAgo == board
      ensures currentTurn == Black && consecutivePasses == 0
      ensures capturedBlack == 0 && capturedWhite == 0
      ensures !gameOver && winner == None && finalScore == None
      ensures gameOverReason == None && resignedPlayer == None
    {
      boardSize := size;
      players := [];
      board := seq(size * size, _ => EMPTY);
      previous := seq(size * size, _ => EMPTY);
      twoMovesAgo := seq(size * size, _ => EMPTY);
      currentTurn := Black;
      consecutivePasses := 0;
      capturedBlack := 0;
      capturedWhite := 0;
      gameOver := false;
      winner := None;
      finalScore := None;
      gameOverReason := None;
      resignedPlayer := None;
    }

    /** from_dict's result: a game holding the stored values, with `turn` as the current turn. */
    constructor Restore(d: GameDict, turn: Stone)
      requires StoneOf(d.currentTurn) == Some(turn)
      ensures ToDict() == d
    {
      boardSize := d.boardSize;
      players := d.players;
      board := d.boardState;
      previous := d.previousState;
      twoMovesAgo := d.twoMovesAgoState;
      currentTurn := turn;
      consecutivePasses := d.consecutivePasses;
      gameOver := d.gameOver;
      gameOverReason := d.gameOverReason;
      resignedPlayer := d.resignedPlayer;
      capturedBlack := d.capturedBlack;
      capturedWhite := d.capturedWhite;
      winner := d.winner;
      finalScore := d.finalScore;
    }

    /** The neighbours of `index`, in the order -size, +size, -1, +1. */
    method GetAdjacentIndices(index: int) returns (neighbours: seq<int>)
      ensures neighbours == Neighbours(boardSize, index)
    {
      var directions := [-(boardSize as int), boardSize as int, -1, 1];
      neighbours := [];
      for k := 0 to |directions|
        invariant neighbours == KeepNeighbours(boardSize, index, directions[..k])
      {
        var neighbour := index + directions[k];
        assert directions[..k + 1][..k] == directions[..k];
        assert KeepNeighbours(boardSize, index, directions[..k + 1])
          == neighbours + (if Kept(boardSize, index, neighbour) then [neighbour] else []);
        if 0 <= neighbour < boardSize * boardSize {
          if Abs(index % boardSize - neighbour % boardSize) > 1 {
            continue;
          }
          neighbours := neighbours + [neighbour];
        }
      }
      assert directions[..|directions|] == directions;
    }

    function IsInBounds(index: int): (r: bool)
      reads this
      requires Valid()
      ensures r <==> 0 <= index < |board|
    {
      0 <= index < boardSize * boardSize
    }

    function IsUnoccupied(index: int): (r: bool)
      reads this
      requires 0 <= index < |board|
      ensures r <==> board[index] == EMPTY
    {
      board[index] == Stone.Empty.Value()
    }

    /**
     * The ko check: an empty board never repeats; otherwise the current
     * board must differ from the board two moves ago. The candidate move
     * plays no part.
     */
    function CheckKo(): (r: bool)
      reads this
      ensures r ==> board == twoMovesAgo
      ensures r <==> board == twoMovesAgo && exists i :: 0 <= i < |board| && board[i] != EMPTY
    {
      if forall i :: 0 <= i < |board| ==> board[i] == EMPTY then false
      else board == twoMovesAgo
    }

    /**
     * The inner loop of count_liberties: each neighbour of `current` that
     * is not yet visited becomes a liberty when empty, or is pushed and
     * visited when it has the fill's colour.
     */
    method SettleNeighbours(index: int, colour: Colour, current: int, neighbours: seq<int>,
                            stack0: seq<int>, visited0: set<int>, liberties0: set<int>)
      returns (stack: seq<int>, visited: set<int>, liberties: set<int>)
      requires Valid() && 0 <= current < |board| && neighbours == Nb()[current]
      requires forall j :: 0 <= j < |neighbours| ==> 0 <= neighbours[j] < |board|
      requires current in visited0 && visited0 <= Group(board, Nb(), index, colour.Value())
      requires forall n :: n in liberties0 ==> 0 <= n < |board| && board[n] == EMPTY
      ensures visited0 <= visited <= Group(board, Nb(), index, colour.Value())
      ensures liberties0 <= liberties
      ensures visited == visited0 ==> stack == stack0
      ensures forall v :: v in stack <==> v in stack0 || v in visited - visited0
      ensures forall j :: 0 <= j < |neighbours| ==> Settled(board, colour.Value(), visited, liberties, neighbours[j])
      ensures forall n :: n in liberties - liberties0 ==> n in neighbours && board[n] == EMPTY && n !in visited
      ensures forall n :: n in liberties0 && n !in visited0 ==> n !in visited
    {
      ghost var nb := Nb();
      stack, visited, liberties := stack0, visited0, liberties0;
      for k := 0 to |neighbours|
        invariant visited0 <= visited <= Group(board, nb, index, colour.Value())
        invariant liberties0 <= liberties
        invariant visited == visited0 ==> stack == stack0
        invariant forall v :: v in stack <==> v in stack0 || v in visited - visited0
        invariant forall j :: 0 <= j < k ==> Settled(board, colour.Value(), visited, liberties, neighbours[j])
        invariant forall n :: n in liberties - liberties0 ==> n in neighbours && board[n] == EMPTY && n !in visited
        invariant forall n :: n in visited - visited0 ==> 0 <= n < |board| && board[n] == colour.Value()
      {
        var neighbour := neighbours[k];
        if neighbour in visited {
          continue;
        }
        if board[neighbour] == Stone.Empty.Value() && neighbour !in liberties {
          liberties := liberties + {neighbour};
        } else if board[neighbour] == colour.Value() {
          GroupStep(board, nb, index, colour.Value(), current, neighbour);
          stack := stack + [neighbour];
          visited := visited + {neighbour};
        }
        assert Settled(board, colour.Value(), visited, liberties, neighbour);
      }
    }

    /**
     * Puts a stone of `colour` on `index` for a moment, asks whether some
     * neighbouring opposing group is left without liberties, then empties
     * the cell again.
     */
    method WouldCapture(index: int, colour: Colour) returns (captured: bool)
      requires Valid() && 0 <= index < |board|
      modifies this`board
      ensures board == old(board)[index := EMPTY]
      ensures captured <==> Captures(old(board)[index := colour.Value()], boardSize, index, Opponent(colour).Value())
    {
      var opponent := Opponent(colour);
      captured := false;
      board := board[index := colour.Value()];
      ghost var placed := board;
      ghost var nb := Nb();
      var neighbours := GetAdjacentIndices(index);
      NeighboursInBounds(boardSize, index);
      for k := 0 to |neighbours|
        invariant board == placed && Valid()
        invariant captured <==> AnyDead(placed, nb, neighbours[..k], opponent.Value())
      {
        var neighbour := neighbours[k];
        ghost var before := captured;
        if board[neighbour] == opponent.Value() {
          var count, group := CountLiberties(neighbour, opponent);
          if count == 0 {
            captured := true;
          }
          assert count == 0 <==> DeadAt(placed, nb, neighbour, opponent.Value());
        }
        assert captured <==> before || DeadAt(placed, nb, neighbour, opponent.Value());
        AnyDeadStep(placed, nb, neighbours, opponent.Value(), k);
      }
      board := board[index := Stone.Empty.Value()];
      assert neighbours[..|neighbours|] == neighbours;
    }

    /** is_suicidal: no liberty for the stone's group and no capture; the cell is left empty. */
    method IsSuicidal(index: int, colour: Colour) returns (suicidal: bool)
      requires Valid() && 0 <= index < |board|
      modifies this`board
      ensures board == old(board)[index := EMPTY]
      ensures suicidal <==> Suicidal(old(board), boardSize, index, colour)
    {
      var liberties, visited := CountLiberties(index, colour);
      var capture := WouldCapture(index, colour);
      suicidal := liberties == 0 && !capture;
    }

    /**
     * is_valid_move: the checks in order are game over, resignation, turn,
     * pass, bounds, occupancy, suicide, ko. The board ends as it began.
     */
    method IsValidMove(index: int, colour: Colour) returns (valid: bool)
      requires Valid()
      modifies this`board
      ensures board == old(board)
      ensures gameOver ==> !valid
      ensures !gameOver && index == -2 ==> valid
      ensures !gameOver && index != -2 && colour != currentTurn ==> !valid
      ensures !gameOver && index == -1 && colour == currentTurn ==> valid
      ensures !gameOver && index != -2 && index != -1 && colour == currentTurn ==>
                (valid <==> && 0 <= index < |board|
                            && board[index] == EMPTY
                            && !Suicidal(board, boardSize, index, colour)
                            && !CheckKo())
    {
      if gameOver {
        return false;
      }
      if index == -2 {
        return true;
      }
      if colour != currentTurn {
        return false;
      }
      if index == -1 {
        return true;
      }
      valid := false;
      if IsInBounds(index) {
        if IsUnoccupied(index) {
          var suicidal := IsSuicidal(index, colour);
          assert board == old(board);
          if !suicidal {
            if !CheckKo() {
              valid := true;
            }
          }
        }
      }
    }

    /**
     * remove_group: every cell of `group` is emptied, and each stone removed
     * is counted as a prisoner of its colour.
     */
    method RemoveGroup(group: set<int>)
      requires Valid() && forall i :: i in group ==> 0 <= i < |board|
      modifies this`board, this`capturedBlack, this`capturedWhite
      ensures Valid()
      ensures board == ClearCells(old(board), group)
      ensures capturedBlack == old(capturedBlack) + |StonesIn(old(board), group, BLACK)|
      ensures capturedWhite == old(capturedWhite) + |StonesIn(old(board), group, WHITE)|
    {
      var rest := group;
      while rest != {}
        invariant forall i :: i in rest ==> 0 <= i < |board|
        invariant rest <= group && Valid()
        invariant board == ClearCells(old(board), group - rest)
        invariant capturedBlack == old(capturedBlack) + |StonesIn(old(board), group - rest, BLACK)|
        invariant capturedWhite == old(capturedWhite) + |StonesIn(old(board), group - rest, WHITE)|
        decreases rest
      {
        var index :| index in rest;
        ghost var removed := group - rest;
        assert board[index] == old(board)[index];
        StonesInAdd(old(board), removed, index, BLACK);
        StonesInAdd(old(board), removed, index, WHITE);
        if board[index] == Stone.Black.Value() {
          capturedBlack := capturedBlack + 1;
        } else if board[index] == Stone.White.Value() {
          capturedWhite := capturedWhite + 1;
        }
        board := board[index := Stone.Empty.Value()];
        rest := rest - {index};
        assert group - rest == removed + {index};
      }
      assert group - rest == group;
    }

    /**
     * One turn of check_capture's loop: when the `k`-th neighbour still
     * holds an opposing stone and its group has no liberty, that group is
     * removed. The board after the turn is the start board `b0` with the
     * dead groups at the first `k + 1` neighbours emptied.
     */
    method CaptureAt(neighbours: seq<int>, k: nat, opponent: Colour, ghost b0: seq<int>)
      requires Valid() && |b0| == |board| && TableSymmetric(Nb())
      requires k < |neighbours| && 0 <= neighbours[k] < |board|
      requires board == ClearCells(b0, DeadAround(b0, Nb(), neighbours[..k], opponent.Value()))
      modifies this`board, this`capturedBlack, this`capturedWhite
      ensures Valid()
      ensures board == ClearCells(b0, DeadAround(b0, Nb(), neighbours[..k + 1], opponent.Value()))
      ensures var grown := |DeadAround(b0, Nb(), neighbours[..k + 1], opponent.Value())|
                         - |DeadAround(b0, Nb(), neighbours[..k], opponent.Value())|;
              && capturedBlack == old(capturedBlack) + (if opponent == Black then grown else 0)
              && capturedWhite == old(capturedWhite) + (if opponent == White then grown else 0)
    {
      ghost var nb := Nb();
      ghost var opp := opponent.Value();
      ghost var dead := DeadAround(b0, nb, neighbours[..k], opp);
      SweepStep(b0, nb, neighbours, opp, k);
      var neighbour := neighbours[k];
      if board[neighbour] == opponent.Value() {
        var count, group := CountLiberties(neighbour, opponent);
        if count == 0 {
          GroupAllOfColour(board, nb, neighbour, opp);
          assert StonesIn(board, group, opp) == group;
          assert StonesIn(board, group, Stone.White.Value() + Stone.Black.Value() - opp) == {};
          ClearCellsTwice(b0, dead, group);
          RemoveGroup(group);
        }
      }
    }

    /**
     * check_capture after a stone of `colour` was put on `index`: every
     * opposing group next to it that has no liberty is removed, and its
     * stones are added to the prisoners of the opposing colour. The result
     * is the one a simultaneous removal of all those groups gives.
     */
    method CheckCapture(index: int, colour: Colour)
      requires Valid() && 0 <= index < |board|
      modifies this`board, this`capturedBlack, this`capturedWhite
      ensures Valid()
      ensures var dead := DeadAround(old(board), Nb(), Neighbours(boardSize, index), Opponent(colour).Value());
              && board == ClearCells(old(board), dead)
              && capturedBlack == old(capturedBlack) + (if colour == White then |dead| else 0)
              && capturedWhite == old(capturedWhite) + (if colour == Black then |dead| else 0)
    {
      var opponent := Opponent(colour);
      ghost var opp := opponent.Value();
      ghost var nb := Nb();
      ghost var b0 := board;
      TableShape(boardSize);
      var neighbours := GetAdjacentIndices(index);
      NeighboursInBounds(boardSize, index);
      SweepStart(b0, nb, neighbours, opp);
      ghost var dead: set<int> := {};
      for k := 0 to |neighbours|
        invariant Valid() && |board| == |b0| && nb == Nb()
        invariant dead == DeadAround(b0, nb, neighbours[..k], opp)
        invariant board == ClearCells(b0, dead)
        invariant capturedBlack == old(capturedBlack) + (if colour == White then |dead| else 0)
        invariant capturedWhite == old(capturedWhite) + (if colour == Black then |dead| else 0)
      {
        CaptureAt(neighbours, k, opponent, b0);
        dead := DeadAround(b0, nb, neighbours[..k + 1], opp);
      }
      assert neighbours[..|neighbours|] == neighbours;
    }

    /**
     * score_game: every empty region is flood-filled once; a region bordered
     * by one colour only is that colour's territory. Each side scores its
     * territory plus the prisoners it took.
     */
    method ScoreGame() returns (blackScore: int, whiteScore: int)
      requires Valid()
      ensures blackScore == |Territory(board, Table(boardSize), BLACK)| + capturedWhite
      ensures whiteScore == |Territory(board, Table(boardSize), WHITE)| + capturedBlack
    {
      ghost var nb := Nb();
      var blackTerritory, whiteTerritory := 0, 0;
      var visited: set<int> := {};
      for i := 0 to |board|
        invariant Closed(board, nb, EMPTY, visited) && AllOfColour(board, EMPTY, visited)
        invariant forall j :: 0 <= j < i ==> Scanned(board, visited, j)
        invariant blackTerritory == |Territory(board, nb, BLACK) * visited|
        invariant whiteTerritory == |Territory(board, nb, WHITE) * visited|
      {
        visited, blackTerritory, whiteTerritory := ScoreRegion(i, visited, blackTerritory, whiteTerritory);
      }
      TerritoryCovered(board, nb, visited, BLACK);
      TerritoryCovered(board, nb, visited, WHITE);
      blackScore := blackTerritory + capturedWhite;
      whiteScore := whiteTerritory + capturedBlack;
    }

    /** One step of score_game's scan: cell `i` starts a new region when it is empty and not yet visited. */
    method ScoreRegion(i: int, visited0: set<int>, black0: int, white0: int)
      returns (visited: set<int>, blackTerritory: int, whiteTerritory: int)
      requires Valid() && 0 <= i < |board|
      requires Closed(board, Nb(), EMPTY, visited0) && AllOfColour(board, EMPTY, visited0)
      requires forall j :: 0 <= j < i ==> Scanned(board, visited0, j)
      requires black0 == |Territory(board, Nb(), BLACK) * visited0|
      requires white0 == |Territory(board, Nb(), WHITE) * visited0|
      ensures Closed(board, Nb(), EMPTY, visited) && AllOfColour(board, EMPTY, visited)
      ensures forall j :: 0 <= j < i + 1 ==> Scanned(board, visited, j)
      ensures blackTerritory == |Territory(board, Nb(), BLACK) * visited|
      ensures whiteTerritory == |Territory(board, Nb(), WHITE) * visited|
    {
      ghost var nb := Nb();
      visited, blackTerritory, whiteTerritory := visited0, black0, white0;
      if board[i] == Stone.Empty.Value() && i !in visited {
        TableShape(boardSize);
        var owner, size;
        owner, size, visited := CountTerritory(i, visited);
        RegionScored(board, nb, i, visited0);
        if owner == Stone.Black {
          blackTerritory := blackTerritory + size;
        } else if owner == Stone.White {
          whiteTerritory := whiteTerritory + size;
        }
      }
      ScanStep(board, i, visited0, visited);
    }

    /**
     * count_territory: flood fill of the empty region around `start`,
     * skipping cells visited by earlier fills, collecting the colours of the
     * stones that border it. The region counts for its owner only when
     * exactly one colour borders it.
     */
    method CountTerritory(start: int, visited0: set<int>) returns (owner: Stone, size: int, visited: set<int>)
      requires Valid() && 0 <= start < |board| && board[start] == EMPTY && start !in visited0
      requires Closed(board, Nb(), EMPTY, visited0) && AllOfColour(board, EMPTY, visited0)
      ensures visited == visited0 + Group(board, Nb(), start, EMPTY)
      ensures visited0 !! Group(board, Nb(), start, EMPTY)
      ensures owner.Value() == TerritoryOwner(board, Nb(), start)
      ensures size == if owner == Empty then 0 else |Group(board, Nb(), start, EMPTY)|
    {
      ghost var nb := Nb();
      ghost var G := Group(board, nb, start, EMPTY);
      TableShape(boardSize);
      var stack := [start];
      visited := visited0 + {start};
      var region: set<int> := {};
      var border: set<int> := {};
      ghost var cells: set<int> := {};
      FillStart(board, nb, start, visited0);
      while stack != []
        invariant Filling(board, nb, start, visited0, stack, visited, region, border, cells)
        decreases G - visited, |stack|
      {
        stack, visited, region, border, cells := GrowRegion(start, visited0, stack, visited, region, border, cells);
      }
      FillDone(board, nb, start, visited0, visited, region, border, cells);
      OwnerOfBorder(board, nb, start, border);
      if |border| == 1 {
        assert TerritoryOwner(board, nb, start) in border;
        var colour :| colour in border;
        owner := StoneOf(colour).value;
        size := |region|;
      } else {
        owner := Stone.Empty;
        size := 0;
      }
    }

    /**
     * One pass of count_territory's outer loop: pop a cell, add it to the
     * region and explore its neighbours. The fill's invariant is kept and
     * the unvisited part of the group or the stack shrinks.
     */
    method GrowRegion(start: int, ghost visited0: set<int>, stack0: seq<int>, visitedIn: set<int>,
                      region0: set<int>, border0: set<int>, ghost cells0: set<int>)
      returns (stack: seq<int>, visited: set<int>, region: set<int>, border: set<int>, ghost cells: set<int>)
      requires Valid() && 0 <= start < |board| && stack0 != [] && TableInBounds(Nb())
      requires Filling(board, Nb(), start, visited0, stack0, visitedIn, region0, border0, cells0)
      ensures Filling(board, Nb(), start, visited0, stack, visited, region, border, cells)
      ensures Group(board, Nb(), start, EMPTY) - visited < Group(board, Nb(), start, EMPTY) - visitedIn
              || (visited == visitedIn && |stack| < |stack0|)
    {
      ghost var nb := Nb();
      ghost var G := Group(board, nb, start, EMPTY);
      TableShape(boardSize);
      stack, visited, region, border, cells := stack0, visitedIn, region0, border0, cells0;
      var current := stack[|stack| - 1];
      assert current in visited && current !in visited0;
      stack := stack[..|stack| - 1];
      region := region + {current};
      forall v | v in stack0 ensures v in stack || v == current {
        if v != current {
          var j :| 0 <= j < |stack0| && stack0[j] == v;
          assert stack[j] == v;
        }
      }
      var neighbours := GetAdjacentIndices(current);
      assert neighbours == nb[current];
      NeighboursInBounds(boardSize, current);
      ghost var stackMid := stack;
      stack, visited, border, cells := ExploreNeighbours(start, visited0, current, neighbours, stack, visited, border, cells);
      RegionExplored(board, nb, current, region, visitedIn, border0, visited, border);
      BorderTouches(board, nb, current, region0, region, cells0, cells);
    }

    /**
     * The inner loop of count_territory: each neighbour of `current` not yet
     * visited is pushed and visited when empty; otherwise its colour joins
     * the bordering colours.
     */
    method ExploreNeighbours(start: int, ghost visited0: set<int>, current: int, neighbours: seq<int>,
                             stack0: seq<int>, visitedIn: set<int>, border0: set<int>, ghost cells0: set<int>)
      returns (stack: seq<int>, visited: set<int>, border: set<int>, ghost cells: set<int>)
      requires Valid() && 0 <= current < |board| && neighbours == Nb()[current]
      requires forall j :: 0 <= j < |neighbours| ==> 0 <= neighbours[j] < |board|
      requires current in visitedIn - visited0 && visited0 <= visitedIn
      requires visitedIn - visited0 <= Group(board, Nb(), start, EMPTY)
      requires border0 == Colours(board, cells0)
      ensures border == Colours(board, cells) && cells0 <= cells
      ensures forall n :: n in cells && n !in cells0 ==> n in neighbours && 0 <= n < |board| && board[n] != EMPTY
      ensures visitedIn <= visited && visited - visited0 <= Group(board, Nb(), start, EMPTY)
      ensures border0 <= border
      ensures visited == visitedIn ==> stack == stack0
      ensures forall v :: v in stack <==> v in stack0 || (v in visited && v !in visitedIn)
      ensures forall j :: 0 <= j < |neighbours| ==> 0 <= neighbours[j] < |board| && Explored(board, visited, border, neighbours[j])
    {
      ghost var nb := Nb();
      stack, visited, border, cells := stack0, visitedIn, border0, cells0;
      for k := 0 to |neighbours|
        invariant visitedIn <= visited && visited - visited0 <= Group(board, nb, start, EMPTY)
        invariant border0 <= border
        invariant visited == visitedIn ==> stack == stack0
        invariant forall v :: v in stack <==> v in stack0 || (v in visited && v !in visitedIn)
        invariant forall j :: 0 <= j < k ==> Explored(board, visited, border, neighbours[j])
        invariant border == Colours(board, cells) && cells0 <= cells
        invariant forall n :: n in cells && n !in cells0 ==> n in neighbours && 0 <= n < |board| && board[n] != EMPTY
      {
        ghost var visitedBefore, borderBefore, stackBefore, cellsBefore := visited, border, stack, cells;
        stack, visited, border, cells := ExploreOne(start, visited0, current, neighbours[k], stack, visited, border, cells);
        forall j | 0 <= j < k ensures Explored(board, visited, border, neighbours[j]) {
          assert Explored(board, visitedBefore, borderBefore, neighbours[j]);
        }
        forall n | n in cells && n !in cells0 ensures n in neighbours && 0 <= n < |board| && board[n] != EMPTY {
          if n !in cellsBefore {
            assert n == neighbours[k];
          }
        }
      }
    }

    /** One neighbour of count_territory's inner loop. */
    method ExploreOne(start: int, ghost visited0: set<int>, current: int, neighbour: int,
                      stack0: seq<int>, visitedIn: set<int>, border0: set<int>, ghost cells0: set<int>)
      returns (stack: seq<int>, visited: set<int>, border: set<int>, ghost cells: set<int>)
      requires Valid() && 0 <= current < |board| && neighbour in Nb()[current] && 0 <= neighbour < |board|
      requires current in visitedIn - visited0 && visited0 <= visitedIn
      requires visitedIn - visited0 <= Group(board, Nb(), start, EMPTY)
      requires border0 == Colours(board, cells0)
      ensures border == Colours(board, cells) && cells0 <= cells
      ensures forall n :: n in cells && n !in cells0 ==> n == neighbour && board[n] != EMPTY
      ensures visitedIn <= visited && visited - visited0 <= Group(board, Nb(), start, EMPTY)
      ensures border0 <= border
      ensures visited == visitedIn ==> stack == stack0
      ensures forall v :: v in stack <==> v in stack0 || (v in visited && v !in visitedIn)
      ensures Explored(board, visited, border, neighbour)
    {
      stack, visited, border, cells := stack0, visitedIn, border0, cells0;
      if neighbour !in visited {
        if board[neighbour] == Stone.Empty.Value() {
          GroupStep(board, Nb(), start, EMPTY, current, neighbour);
          stack := stack + [neighbour];
          visited := visited + {neighbour};
        } else {
          ColoursAdd(board, cells, neighbour);
          border := border + {board[neighbour]};
          cells := cells + {neighbour};
        }
      }
    }

    /**
     * Flood fill from `index` through cells of `colour`. `visited` is the
     * group reached (the seed whatever its own colour, then stones of
     * `colour`); `count` is the number of distinct empty cells next to it.
     */
    method CountLiberties(index: int, colour: Colour) returns (count: nat, visited: set<int>)
      requires Valid() && 0 <= index < |board|
      ensures visited == Group(board, Nb(), index, colour.Value())
      ensures count == |Liberties(board, Nb(), visited)|
    {
      ghost var nb := Nb();
      ghost var G := Group(board, nb, index, colour.Value());
      ghost var cells := Cells(|board|);
      GroupHasStart(board, nb, index, colour.Value());
      TableShape(boardSize);
      var stack := [index];
      visited := {index};
      var liberties: set<int> := {};
      ghost var done: set<int> := {};
      while stack != []
        invariant visited <= G && visited <= cells && index in visited
        invariant forall v :: v in visited <==> v in done || v in stack
        invariant forall v, n :: v in done && n in nb[v] ==> Settled(board, colour.Value(), visited, liberties, n)
        invariant forall n :: n in liberties ==>
                    0 <= n < |board| && board[n] == EMPTY && n !in visited && Touches(nb, done, n)
        decreases cells - visited, |stack|
      {
        var current := stack[|stack| - 1];
        assert current in visited;
        stack := stack[..|stack| - 1];
        var neighbours := GetAdjacentIndices(current);
        assert neighbours == nb[current];
        NeighboursInBounds(boardSize, current);
        ghost var visited0, stack0, liberties0 := visited, stack, liberties;
        stack, visited, liberties := SettleNeighbours(index, colour, current, neighbours, stack, visited, liberties);
        forall v, n | v in done && n in nb[v] ensures Settled(board, colour.Value(), visited, liberties, n) {
          assert Settled(board, colour.Value(), visited0, liberties0, n);
        }
        forall n | n in liberties ensures Touches(nb, done + {current}, n) {
          if n !in liberties0 {
            assert n in nb[current];
          }
        }
        done := done + {current};
      }
      assert visited == done by {
        forall v ensures v in visited <==> v in done {
          assert v !in stack;
        }
      }
      FillComplete(board, nb, index, colour.Value(), visited, liberties);
      count := |liberties|;
    }

    /**
     * end_game: the game is over for `reason`. A resignation names the
     * resigning id and makes the first other player the winner; a double
     * pass scores the board and gives the win to the colour ahead.
     */
    method EndGame(reason: string, resigned: Option<string>)
      requires Valid()
      modifies this`gameOver, this`gameOverReason, this`resignedPlayer, this`winner, this`finalScore
      ensures gameOver && gameOverReason == Some(reason)
      ensures Resigns(reason, resigned) ==>
                && resignedPlayer == resigned
                && winner == FirstOther(players, resigned.value)
                && finalScore == old(finalScore)
      ensures !Resigns(reason, resigned) && reason == "double_pass" ==>
                && finalScore == Some(FinalScore(board, boardSize, capturedBlack, capturedWhite))
                && winner == Victor(players, FinalScore(board, boardSize, capturedBlack, capturedWhite), old(winner))
                && resignedPlayer == old(resignedPlayer)
      ensures !Resigns(reason, resigned) && reason != "double_pass" ==>
                && finalScore == old(finalScore)
                && winner == old(winner)
                && resignedPlayer == old(resignedPlayer)
    {
      gameOver := true;
      gameOverReason := Some(reason);
      if reason == "resign" && resigned.Some? && resigned.value != "" {
        resignedPlayer := resigned;
        winner := FirstOther(players, resigned.value);
      } else if reason == "double_pass" {
        DecideByScore();
      }
    }

    /** The double-pass branch of end_game: store the score and name the player of the colour ahead. */
    method DecideByScore()
      requires Valid()
      modifies this`finalScore, this`winner
      ensures finalScore == Some(FinalScore(board, boardSize, capturedBlack, capturedWhite))
      ensures winner == Victor(players, FinalScore(board, boardSize, capturedBlack, capturedWhite), old(winner))
    {
      var blackScore, whiteScore := ScoreGame();
      ghost var score := FinalScore(board, boardSize, capturedBlack, capturedWhite);
      assert score.0 == blackScore;
      assert score.1 == whiteScore;
      finalScore := Some((blackScore, whiteScore));
      if blackScore > whiteScore || whiteScore > blackScore {
        var colour := if blackScore > whiteScore then Stone.Black else Stone.White;
        var id := FirstWithColour(players, colour.Value());
        if id.Some? {
          winner := id;
        }
      } else {
        winner := None;
      }
    }

    /**
     * make_move: -2 resigns for the first player seated with `colour`, -1
     * passes, anything else places a stone, removes the opposing groups it
     * leaves without liberties and remembers the two previous boards. Two
     * passes in a row end the game; every move but a resignation hands the
     * turn to the other colour.
     */
    method MakeMove(index: int, colour: Colour)
      requires Valid() && (index == -2 || index == -1 || 0 <= index < |board|)
      modifies this
      ensures Valid() && boardSize == old(boardSize) && players == old(players)
      ensures index == -2 ==>
                && board == old(board) && previous == old(previous) && twoMovesAgo == old(twoMovesAgo)
                && currentTurn == old(currentTurn) && consecutivePasses == old(consecutivePasses)
                && capturedBlack == old(capturedBlack) && capturedWhite == old(capturedWhite)
                && gameOver && gameOverReason == Some("resign") && finalScore == old(finalScore)
      ensures index == -2 ==>
                var resigned := FirstWithColour(players, colour.Value());
                if Resigns("resign", resigned)
                then resignedPlayer == resigned && winner == FirstOther(players, resigned.value)
                else resignedPlayer == old(resignedPlayer) && winner == old(winner)
      ensures index == -1 ==>
                && board == old(board) && previous == old(previous) && twoMovesAgo == old(twoMovesAgo)
                && consecutivePasses == old(consecutivePasses) + 1
                && capturedBlack == old(capturedBlack) && capturedWhite == old(capturedWhite)
      ensures 0 <= index ==>
                var placed := old(board)[index := colour.Value()];
                var dead := DeadAround(placed, Table(boardSize), Neighbours(boardSize, index), Opponent(colour).Value());
                && twoMovesAgo == old(previous) && previous == old(board)
                && board == ClearCells(placed, dead)
                && consecutivePasses == 0
                && capturedBlack == old(capturedBlack) + (if colour == White then |dead| else 0)
                && capturedWhite == old(capturedWhite) + (if colour == Black then |dead| else 0)
      ensures index != -2 ==> currentTurn == Opponent(colour)
      ensures index != -2 && consecutivePasses >= 2 ==>
                && gameOver && gameOverReason == Some("double_pass")
                && finalScore == Some(FinalScore(board, boardSize, capturedBlack, capturedWhite))
                && winner == Victor(players, FinalScore(board, boardSize, capturedBlack, capturedWhite), old(winner))
                && resignedPlayer == old(resignedPlayer)
      ensures index != -2 && consecutivePasses < 2 ==>
                && gameOver == old(gameOver) && gameOverReason == old(gameOverReason)
                && finalScore == old(finalScore) && winner == old(winner)
                && resignedPlayer == old(resignedPlayer)
    {
      if index == -2 {
        var resigned := FirstWithColour(players, colour.Value());
        EndGame("resign", resigned);
        return;
      }
      if index == -1 {
        consecutivePasses := consecutivePasses + 1;
      } else {
        PlaceStone(index, colour);
      }
      if consecutivePasses >= 2 {
        EndGame("double_pass", None);
      }
      currentTurn := Opponent(colour);
    }

    /** The placement branch of make_move: remember the two previous boards, place, capture, reset the passes. */
    method PlaceStone(index: int, colour: Colour)
      requires Valid() && 0 <= index < |board|
      modifies this`twoMovesAgo, this`previous, this`board, this`capturedBlack, this`capturedWhite, this`consecutivePasses
      ensures Valid()
      ensures var placed := old(board)[index := colour.Value()];
              var dead := DeadAround(placed, Table(boardSize), Neighbours(boardSize, index), Opponent(colour).Value());
              && twoMovesAgo == old(previous) && previous == old(board)
              && board == ClearCells(placed, dead)
              && consecutivePasses == 0
              && capturedBlack == old(capturedBlack) + (if colour == White then |dead| else 0)
              && capturedWhite == old(capturedWhite) + (if colour == Black then |dead| else 0)
    {
      twoMovesAgo := previous;
      previous := board;
      board := board[index := colour.Value()];
      CheckCapture(index, colour);
      consecutivePasses := 0;
    }

    /** to_dict: every stored field under its key, the turn as its stone code. */
    function ToDict(): (d: GameDict)
      reads this
      ensures StoneOf(d.currentTurn) == Some(currentTurn)
    {
      GameDict(boardSize, players, board, previous, twoMovesAgo, currentTurn.Value(), consecutivePasses,
               gameOver, gameOverReason, resignedPlayer, capturedBlack, capturedWhite, winner, finalScore)
    }

    /**
     * from_dict: a fresh game of the stored size whose fields are the stored
     * values. `Stone(current_turn)` rejects a code outside 0..2, which
     * yields no game.
     */
    static method FromDict(d: GameDict) returns (g: GameState?)
      ensures g == null <==> StoneOf(d.currentTurn).None?
      ensures g != null ==> fresh(g) && g.ToDict() == d
    {
      var turn := StoneOf(d.currentTurn);
      if turn.None? {
        return null;
      }
      g := new GameState.Restore(d, turn.value);
    }
  }
}
