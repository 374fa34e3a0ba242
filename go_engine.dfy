/**
 * The client's replay engine (app/static/go_engine.js): its own neighbour
 * list, flood fill and liberty test, and the replay of a move log from an
 * empty board with handicap stones, used to show any earlier position of a
 * game.
 *
 * Boards are flat lists of cell codes (0 empty, 1 black, 2 white), as in
 * the server's engine; groups, liberties and captures are those of module
 * Groups over this engine's own neighbour table, `Adjacency(size)`.
 */
module Replay {
  import opened Grid
  import opened Groups

  // ---------------------------------------------------------------------
  // Colours and neighbours

  /** oppositeColor: white for black, and black for every other value. */
  function OppositeColour(c: int): (r: int)
    ensures r == BLACK || r == WHITE
    ensures r != c
    ensures c == BLACK || c == WHITE ==> r == BLACK + WHITE - c
  {
    if c == BLACK then WHITE else BLACK
  }

  /**
   * getAdjacentIndices: the cell to the left if there is a column to the
   * left, then right, up and down under the same test.
   */
  function AdjacentIndices(index: int, size: nat): (r: seq<int>)
    requires size > 0 && 0 <= index < size * size
    ensures |r| <= 4
  {
    var x, y := index % size, index / size;
    (if x > 0 then [index - 1] else [])
    + (if x < size - 1 then [index + 1] else [])
    + (if y > 0 then [index - size] else [])
    + (if y < size - 1 then [index + size] else [])
  }

  /** The cells listed are exactly the board cells one step away, on every board size. */
  lemma AdjacentOrthogonal(size: nat, index: int)
    requires size > 0 && 0 <= index < size * size
    ensures forall n :: n in AdjacentIndices(index, size) <==> Orthogonal(size, index, n)
  {
    forall n ensures n in AdjacentIndices(index, size) <==> Orthogonal(size, index, n) {
      if n in AdjacentIndices(index, size) {
        ListedCases(size, index, n);
        ListedIsOrthogonal(size, index, n);
      }
      if Orthogonal(size, index, n) {
        OrthogonalIsListed(size, index, n);
      }
    }
  }

  lemma ListedIsOrthogonal(size: nat, index: int, n: int)
    requires size > 0 && 0 <= index < size * size
    requires || (n == index - 1 && index % size > 0)
             || (n == index + 1 && index % size < size - 1)
             || (n == index - size && index / size > 0)
             || (n == index + size && index / size < size - 1)
    ensures Orthogonal(size, index, n)
  {
    if n == index - 1 && index % size > 0 {
      StepLeft(size, index);
    } else if n == index + 1 && index % size < size - 1 {
      StepRight(size, index);
    } else if n == index - size && index / size > 0 {
      StepUp(size, index);
    } else {
      StepDown(size, index);
    }
  }

  /** The four guarded directions of getAdjacentIndices. */
  lemma ListedCases(size: nat, index: int, n: int)
    requires size > 0 && 0 <= index < size * size
    requires n in AdjacentIndices(index, size)
    ensures || (n == index - 1 && index % size > 0)
            || (n == index + 1 && index % size < size - 1)
            || (n == index - size && index / size > 0)
            || (n == index + size && index / size < size - 1)
  {
  }

  lemma StepLeft(size: nat, index: int)
    requires size > 0 && 0 <= index < size * size && index % size > 0
    ensures Orthogonal(size, index, index - 1)
  {
    var x, y := index % size, index / size;
    DivMod(index - 1, size, y, x - 1);
  }

  lemma StepRight(size: nat, index: int)
    requires size > 0 && 0 <= index < size * size && index % size < size - 1
    ensures Orthogonal(size, index, index + 1)
  {
    var x, y := index % size, index / size;
    CellBounds(index, size);
    DivMod(index + 1, size, y, x + 1);
    CellOf(size, x + 1, y);
  }

  lemma StepUp(size: nat, index: int)
    requires size > 0 && 0 <= index < size * size && index / size > 0
    ensures Orthogonal(size, index, index - size)
  {
    var x, y := index % size, index / size;
    CellBounds(index, size);
    DivMod(index - size, size, y - 1, x);
    MulAtLeast(y, size);
  }

  lemma StepDown(size: nat, index: int)
    requires size > 0 && 0 <= index < size * size && index / size < size - 1
    ensures Orthogonal(size, index, index + size)
  {
    var x, y := index % size, index / size;
    CellBounds(index, size);
    DivMod(index + size, size, y + 1, x);
    CellOf(size, x, y + 1);
  }

  lemma OrthogonalIsListed(size: nat, index: int, n: int)
    requires size > 0 && Orthogonal(size, index, n)
    ensures n in AdjacentIndices(index, size)
  {
    OrthogonalIsStep(size, index, n);
    if n == index + 1 {
      RightListed(size, index);
    } else if n == index - 1 {
      LeftListed(size, index);
    } else if n == index + size {
      DownListed(size, index);
    } else {
      UpListed(size, index);
    }
  }

  lemma RightListed(size: nat, index: int)
    requires size > 0 && Orthogonal(size, index, index + 1)
    ensures index + 1 in AdjacentIndices(index, size)
  {
    var x, y := index % size, index / size;
    CellBounds(index, size);
    if x == size - 1 {
      DivMod(index + 1, size, y + 1, 0);
    }
  }

  lemma LeftListed(size: nat, index: int)
    requires size > 0 && Orthogonal(size, index, index - 1)
    ensures index - 1 in AdjacentIndices(index, size)
  {
    var x, y := index % size, index / size;
    CellBounds(index, size);
    if x == 0 {
      DivMod(index - 1, size, y - 1, size - 1);
    }
  }

  lemma DownListed(size: nat, index: int)
    requires size > 0 && Orthogonal(size, index, index + size)
    ensures index + size in AdjacentIndices(index, size)
  {
    var x, y := index % size, index / size;
    CellBounds(index, size);
    if y == size - 1 {
      assert false;
    }
  }

  lemma UpListed(size: nat, index: int)
    requires size > 0 && Orthogonal(size, index, index - size)
    ensures index - size in AdjacentIndices(index, size)
  {
    var x, y := index % size, index / size;
    CellBounds(index, size);
  }

  /** Every listed neighbour is a cell of the board. */
  lemma AdjacentInBounds(size: nat, index: int)
    requires size > 0 && 0 <= index < size * size
    ensures forall n :: n in AdjacentIndices(index, size) ==> 0 <= n < size * size
    ensures var r := AdjacentIndices(index, size); forall j :: 0 <= j < |r| ==> 0 <= r[j] < size * size
  {
    AdjacentOrthogonal(size, index);
    var r := AdjacentIndices(index, size);
    assert forall j :: 0 <= j < |r| ==> r[j] in r;
  }

  /** The neighbour table of this engine: cell `i` lists `AdjacentIndices(i, size)`. */
  ghost function Adjacency(size: nat): (nb: seq<seq<int>>)
    requires size > 0
    ensures |nb| == size * size
    ensures forall i :: 0 <= i < size * size ==> nb[i] == AdjacentIndices(i, size)
  {
    seq(size * size, i requires 0 <= i < size * size => AdjacentIndices(i, size))
  }

  /** Every listed neighbour is on the board, and adjacency is symmetric. */
  lemma AdjacencyShape(size: nat)
    requires size > 0
    ensures TableInBounds(Adjacency(size)) && TableSymmetric(Adjacency(size))
  {
    var nb := Adjacency(size);
    forall i | 0 <= i < |nb| ensures forall j :: j in nb[i] ==> 0 <= j < |nb| {
      AdjacentOrthogonal(size, i);
    }
    forall i, j | 0 <= i < |nb| && 0 <= j < |nb| && j in nb[i] ensures i in nb[j] {
      AdjacentOrthogonal(size, i);
      AdjacentOrthogonal(size, j);
    }
  }

  // ---------------------------------------------------------------------
  // Connected group

  /**
   * The state of getConnectedGroup's loop: everything visited or waiting on
   * the stack belongs to the group of `start`; the seed has been reached;
   * `order` lists the visited cells once each, in the order they were
   * visited; and each same-coloured neighbour of a visited cell is visited
   * or waiting.
   */
  ghost predicate Flooding(b: seq<int>, nb: seq<seq<int>>, start: int, stack: seq<int>, visited: set<int>, order: seq<int>)
    requires |b| == |nb| && 0 <= start < |b|
  {
    var G := Group(b, nb, start, b[start]);
    && visited <= G
    && (forall k :: 0 <= k < |stack| ==> stack[k] in G)
    && (start in visited || start in stack)
    && (forall v :: v in order <==> v in visited)
    && (forall i, j :: 0 <= i < j < |order| ==> order[i] != order[j])
    && (forall v, n :: v in visited && 0 <= v < |nb| && n in nb[v] && 0 <= n < |b| && b[n] == b[start] ==>
          n in visited || n in stack)
  }

  /**
   * getConnectedGroup: the cells the flood fill from `start` reaches
   * through cells of the start's colour, each listed once.
   */
  method ConnectedGroup(start: int, board: seq<int>, size: nat) returns (group: seq<int>)
    requires size > 0 && |board| == size * size && 0 <= start < |board|
    ensures forall i, j :: 0 <= i < j < |group| ==> group[i] != group[j]
    ensures forall v :: v in group <==> v in Group(board, Adjacency(size), start, board[start])
  {
    ghost var nb := Adjacency(size);
    ghost var G := Group(board, nb, start, board[start]);
    GroupHasStart(board, nb, start, board[start]);
    var visited: set<int> := {};
    var order: seq<int> := [];
    var stack := [start];
    while stack != []
      invariant Flooding(board, nb, start, stack, visited, order)
      decreases G - visited, |stack|
    {
      stack, visited, order := VisitNext(start, board, size, stack, visited, order);
    }
    GroupWithin(board, nb, start, board[start], visited);
    group := order;
  }

  /** One turn of getConnectedGroup's loop: pop a cell and, if it is new, visit it. */
  method VisitNext(start: int, board: seq<int>, size: nat, stack0: seq<int>, visited0: set<int>, order0: seq<int>)
    returns (stack: seq<int>, visited: set<int>, order: seq<int>)
    requires size > 0 && |board| == size * size && 0 <= start < |board| && stack0 != []
    requires Flooding(board, Adjacency(size), start, stack0, visited0, order0)
    ensures Flooding(board, Adjacency(size), start, stack, visited, order)
    ensures var G := Group(board, Adjacency(size), start, board[start]);
            G - visited < G - visited0 || (visited == visited0 && |stack| < |stack0|)
  {
    ghost var nb := Adjacency(size);
    var current := stack0[|stack0| - 1];
    stack := stack0[..|stack0| - 1];
    if current in visited0 {
      FloodSkip(board, nb, start, stack0, visited0, order0);
      visited, order := visited0, order0;
      return;
    }
    visited := visited0 + {current};
    order := order0 + [current];
    AdjacencyShape(size);
    AdjacentInBounds(size, current);
    var neighbours := AdjacentIndices(current, size);
    stack := PushSameColour(board, neighbours, board[start], visited, stack);
    FloodVisit(board, nb, start, stack0, visited0, order0, stack);
  }

  /** Popping a cell that was already visited keeps the loop state. */
  lemma FloodSkip(b: seq<int>, nb: seq<seq<int>>, start: int, stack0: seq<int>, visited: set<int>, order: seq<int>)
    requires |b| == |nb| && 0 <= start < |b| && stack0 != []
    requires Flooding(b, nb, start, stack0, visited, order) && stack0[|stack0| - 1] in visited
    ensures Flooding(b, nb, start, stack0[..|stack0| - 1], visited, order)
  {
    var stack := stack0[..|stack0| - 1];
    assert forall v :: v in stack0 ==> v in stack || v in visited;
  }

  /**
   * Visiting a new cell popped from the stack, with its unvisited
   * neighbours of the group's colour pushed, keeps the loop state.
   */
  lemma FloodVisit(b: seq<int>, nb: seq<seq<int>>, start: int, stack0: seq<int>, visited0: set<int>, order0: seq<int>,
                   stack: seq<int>)
    requires |b| == |nb| && 0 <= start < |b| && stack0 != [] && TableInBounds(nb)
    requires Flooding(b, nb, start, stack0, visited0, order0)
    requires var current := stack0[|stack0| - 1];
             && current !in visited0
             && forall v :: v in stack <==>
                  v in stack0[..|stack0| - 1]
                  || (v in nb[current] && 0 <= v < |b| && b[v] == b[start] && v !in visited0 && v != current)
    ensures var current := stack0[|stack0| - 1];
            Flooding(b, nb, start, stack, visited0 + {current}, order0 + [current])
  {
    var current := stack0[|stack0| - 1];
    var G := Group(b, nb, start, b[start]);
    var visited := visited0 + {current};
    assert current in G;
    assert forall v :: v in stack0 ==> v in stack || v == current;
    forall v | v in stack ensures v in G {
      if v !in stack0[..|stack0| - 1] {
        GroupStep(b, nb, start, b[start], current, v);
      }
    }
    assert forall k :: 0 <= k < |stack| ==> stack[k] in G;
  }

  /**
   * The inner loop of getConnectedGroup: push every neighbour of the
   * current cell that has the target colour and is not yet visited.
   */
  method PushSameColour(board: seq<int>, neighbours: seq<int>, target: int, visited: set<int>, stack0: seq<int>)
    returns (stack: seq<int>)
    requires forall j :: 0 <= j < |neighbours| ==> 0 <= neighbours[j] < |board|
    ensures forall v :: v in stack <==>
              v in stack0 || (v in neighbours && 0 <= v < |board| && board[v] == target && v !in visited)
  {
    stack := stack0;
    for k := 0 to |neighbours|
      invariant forall v :: v in stack <==>
                  v in stack0 || (v in neighbours[..k] && 0 <= v < |board| && board[v] == target && v !in visited)
    {
      var n := neighbours[k];
      assert neighbours[..k + 1] == neighbours[..k] + [n];
      if board[n] == target && n !in visited {
        stack := stack + [n];
      }
    }
    assert neighbours[..|neighbours|] == neighbours;
  }

  // ---------------------------------------------------------------------
  // Liberties and capture

  /** Some listed neighbour of cell `v` is empty. */
  ghost predicate NextToEmpty(b: seq<int>, nb: seq<seq<int>>, v: int) {
    0 <= v < |nb| && exists n :: n in nb[v] && 0 <= n < |b| && b[n] == EMPTY
  }

  /** hasLiberties: some cell of the group has an empty neighbour. */
  method HasLiberties(group: seq<int>, board: seq<int>, size: nat) returns (r: bool)
    requires size > 0 && |board| == size * size
    requires forall k :: 0 <= k < |group| ==> 0 <= group[k] < |board|
    ensures r <==> exists v :: v in group && NextToEmpty(board, Adjacency(size), v)
  {
    ghost var nb := Adjacency(size);
    for k := 0 to |group|
      invariant forall i :: 0 <= i < k ==> !NextToEmpty(board, nb, group[i])
    {
      var idx := group[k];
      AdjacentInBounds(size, idx);
      var neighbours := AdjacentIndices(idx, size);
      for j := 0 to |neighbours|
        invariant forall i :: 0 <= i < j ==> board[neighbours[i]] != EMPTY
      {
        if board[neighbours[j]] == EMPTY {
          assert neighbours[j] in nb[idx];
          assert NextToEmpty(board, nb, idx) && idx in group;
          return true;
        }
      }
      assert forall n :: n in nb[idx] ==> exists i :: 0 <= i < |neighbours| && n == neighbours[i];
    }
    assert forall v :: v in group ==> exists i :: 0 <= i < |group| && v == group[i];
    return false;
  }

  /**
   * For a set of stones of one colour, having no liberty is the same as
   * having no stone next to an empty cell.
   */
  lemma NoLibertyNoEmptyNeighbour(b: seq<int>, nb: seq<seq<int>>, G: set<int>, c: int)
    requires c != EMPTY && AllOfColour(b, c, G)
    ensures Liberties(b, nb, G) == {} <==> forall v :: v in G ==> !NextToEmpty(b, nb, v)
  {
    if v :| v in G && NextToEmpty(b, nb, v) {
      var n :| n in nb[v] && 0 <= n < |b| && b[n] == EMPTY;
      assert n in Liberties(b, nb, G);
    }
    if n :| n in Liberties(b, nb, G) {
      var v :| v in G && 0 <= v < |nb| && n in nb[v];
      assert NextToEmpty(b, nb, v);
    }
  }

  /**
   * isCaptured: no cell of the connected group of `index` has an empty
   * neighbour; for a stone, its group has no liberty. The colour argument
   * is not used.
   */
  method IsCaptured(index: int, colour: int, board: seq<int>, size: nat) returns (r: bool)
    requires size > 0 && |board| == size * size && 0 <= index < |board|
    ensures r <==> forall v :: v in Group(board, Adjacency(size), index, board[index]) ==>
                     !NextToEmpty(board, Adjacency(size), v)
    ensures board[index] != EMPTY ==> (r <==> DeadAt(board, Adjacency(size), index, board[index]))
  {
    ghost var nb := Adjacency(size);
    ghost var G := Group(board, nb, index, board[index]);
    var group := ConnectedGroup(index, board, size);
    assert forall k :: 0 <= k < |group| ==> group[k] in G;
    var live := HasLiberties(group, board, size);
    r := !live;
    if board[index] != EMPTY {
      GroupAllOfColour(board, nb, index, board[index]);
      NoLibertyNoEmptyNeighbour(board, nb, G, board[index]);
    }
  }

  /** Every cell holds a cell code: empty, black or white. */
  ghost predicate Stones(b: seq<int>) {
    forall i :: 0 <= i < |b| ==> 0 <= b[i] <= 2
  }

  /** The loop that empties every cell of a captured group. */
  method ClearGroup(board0: seq<int>, group: seq<int>) returns (board: seq<int>)
    requires forall k :: 0 <= k < |group| ==> 0 <= group[k] < |board0|
    ensures board == ClearCells(board0, set v | v in group)
  {
    board := board0;
    for k := 0 to |group|
      invariant |board| == |board0|
      invariant forall i :: 0 <= i < |board| ==> board[i] == if i in group[..k] then EMPTY else board0[i]
    {
      assert group[..k + 1] == group[..k] + [group[k]];
      board := board[group[k] := EMPTY];
    }
    assert group[..|group|] == group;
  }

  /** The set of a list's elements is any set with the same members. */
  lemma ElementsAre(s: seq<int>, S: set<int>)
    requires forall v :: v in s <==> v in S
    ensures (set v | v in s) == S
  {
    assert forall v :: v in (set v | v in s) <==> v in S;
  }

  /** A list without repeats has as many elements as the set of its elements. */
  lemma {:induction false} DistinctCard(s: seq<int>)
    requires forall i, j :: 0 <= i < j < |s| ==> s[i] != s[j]
    ensures |set v | v in s| == |s|
  {
    if s != [] {
      var t := s[..|s| - 1];
      DistinctCard(t);
      assert (set v | v in s) == (set v | v in t) + {s[|s| - 1]};
      assert s[|s| - 1] !in t;
    }
  }

  /**
   * One turn of replayMovesUpTo's neighbour loop: a neighbour that still
   * holds an opposing stone is checked, and its group is removed and
   * counted when it has no liberty.
   */
  method CaptureNeighbour(board0: seq<int>, ghost placed: seq<int>, neighbours: seq<int>, k: nat, colour: int, size: nat)
    returns (board: seq<int>, gainedBlack: nat, gainedWhite: nat)
    requires size > 0 && |placed| == size * size && Stones(placed) && (colour == BLACK || colour == WHITE)
    requires k < |neighbours| && 0 <= neighbours[k] < |placed|
    requires board0 == ClearCells(placed, DeadAround(placed, Adjacency(size), neighbours[..k], OppositeColour(colour)))
    ensures var opp := OppositeColour(colour);
            var before := DeadAround(placed, Adjacency(size), neighbours[..k], opp);
            var after := DeadAround(placed, Adjacency(size), neighbours[..k + 1], opp);
            && board == ClearCells(placed, after)
            && gainedBlack == (if opp == BLACK then |after| - |before| else 0)
            && gainedWhite == (if opp == WHITE then |after| - |before| else 0)
  {
    ghost var nb := Adjacency(size);
    ghost var opp := OppositeColour(colour);
    AdjacencyShape(size);
    board, gainedBlack, gainedWhite := board0, 0, 0;
    var neighbour := neighbours[k];
    var neighbourColour := board[neighbour];
    if neighbourColour != EMPTY && neighbourColour != colour {
      assert neighbourColour == opp;
      ghost var G := Group(board0, nb, neighbour, opp);
      var group := ConnectedGroup(neighbour, board, size);
      assert forall j :: 0 <= j < |group| ==> group[j] in G;
      var live := HasLiberties(group, board, size);
      SweepCapture(placed, nb, neighbours, opp, k);
      if !live {
        board := ClearGroup(board, group);
        ElementsAre(group, G);
        DistinctCard(group);
        if neighbourColour == BLACK {
          gainedBlack := |group|;
        }
        if neighbourColour == WHITE {
          gainedWhite := |group|;
        }
      }
    } else {
      SweepPass(placed, nb, neighbours, opp, k);
    }
  }

  /**
   * The capture sweep at a neighbour that still holds an opposing stone:
   * its group on the swept board is its group on the board the stone was
   * placed on, and the dead set grows by that group exactly when no cell
   * of it has an empty neighbour.
   */
  lemma SweepCapture(placed: seq<int>, nb: seq<seq<int>>, cells: seq<int>, opp: int, k: nat)
    requires TableSymmetric(nb) && |placed| == |nb| && opp != EMPTY
    requires k < |cells| && 0 <= cells[k] < |placed|
    requires ClearCells(placed, DeadAround(placed, nb, cells[..k], opp))[cells[k]] == opp
    ensures var D := DeadAround(placed, nb, cells[..k], opp);
            var D' := DeadAround(placed, nb, cells[..k + 1], opp);
            var b := ClearCells(placed, D);
            var G := Group(b, nb, cells[k], opp);
            if forall v :: v in G ==> !NextToEmpty(b, nb, v) then
              D' == D + G && |D'| == |D| + |G| && ClearCells(b, G) == ClearCells(placed, D')
            else
              D' == D
  {
    var D := DeadAround(placed, nb, cells[..k], opp);
    var b := ClearCells(placed, D);
    var n := cells[k];
    SweepStep(placed, nb, cells, opp, k);
    GroupAllOfColour(b, nb, n, opp);
    NoLibertyNoEmptyNeighbour(b, nb, Group(b, nb, n, opp), opp);
    ClearCellsTwice(placed, D, Group(b, nb, n, opp));
  }

  /** The capture sweep at a neighbour that no longer holds an opposing stone finds nothing new. */
  lemma SweepPass(placed: seq<int>, nb: seq<seq<int>>, cells: seq<int>, opp: int, k: nat)
    requires TableSymmetric(nb) && |placed| == |nb| && opp != EMPTY
    requires k < |cells| && 0 <= cells[k] < |placed|
    requires ClearCells(placed, DeadAround(placed, nb, cells[..k], opp))[cells[k]] != opp
    ensures DeadAround(placed, nb, cells[..k + 1], opp) == DeadAround(placed, nb, cells[..k], opp)
  {
    SweepStep(placed, nb, cells, opp, k);
  }

  /** The opposing stones a stone of `colour` put on `at` captures: the liberty-less groups next to it. */
  ghost function Dead(placed: seq<int>, size: nat, at: int, colour: int): set<int>
    requires size > 0 && 0 <= at < size * size
  {
    DeadAround(placed, Adjacency(size), AdjacentIndices(at, size), OppositeColour(colour))
  }

  /**
   * The placement part of replayMovesUpTo's move loop: the stone is
   * written, then each neighbour holding an opposing stone is checked in
   * turn. The result is the one a simultaneous removal of every
   * liberty-less opposing group next to the stone gives.
   */
  method PlayStone(board0: seq<int>, at: int, colour: int, size: nat)
    returns (board: seq<int>, gainedBlack: nat, gainedWhite: nat)
    requires size > 0 && |board0| == size * size && Stones(board0) && 0 <= at < |board0|
    requires colour == BLACK || colour == WHITE
    ensures var placed := board0[at := colour];
            var dead := Dead(placed, size, at, colour);
            && board == ClearCells(placed, dead)
            && gainedBlack == (if colour == WHITE then |dead| else 0)
            && gainedWhite == (if colour == BLACK then |dead| else 0)
  {
    ghost var nb := Adjacency(size);
    ghost var opp := OppositeColour(colour);
    board := board0[at := colour];
    ghost var placed := board;
    AdjacentInBounds(size, at);
    var neighbours := AdjacentIndices(at, size);
    SweepStart(placed, nb, neighbours, opp);
    gainedBlack, gainedWhite := 0, 0;
    ghost var dead: set<int> := {};
    for k := 0 to |neighbours|
      invariant dead == DeadAround(placed, nb, neighbours[..k], opp)
      invariant board == ClearCells(placed, dead)
      invariant gainedBlack == (if colour == WHITE then |dead| else 0)
      invariant gainedWhite == (if colour == BLACK then |dead| else 0)
    {
      var next, black, white := CaptureNeighbour(board, placed, neighbours, k, colour, size);
      board, gainedBlack, gainedWhite := next, gainedBlack + black, gainedWhite + white;
      dead := DeadAround(placed, nb, neighbours[..k + 1], opp);
    }
    assert neighbours[..|neighbours|] == neighbours;
  }

  // ---------------------------------------------------------------------
  // Replaying a move log

  /** One logged move: a cell index, -1 for a pass or -2 for a resignation, and the mover's colour. */
  datatype Move = Move(index: int, colour: int)

  /** What replayMovesUpTo returns. */
  datatype Position = Position(board: seq<int>, capturedBlack: nat, capturedWhite: nat, currentTurn: int)

  /** A move the replay can apply: a resignation, a pass, or a black or white stone on a cell of the board. */
  predicate Playable(m: Move, size: nat) {
    m.index == -2 || m.index == -1 || (0 <= m.index < size * size && (m.colour == BLACK || m.colour == WHITE))
  }

  /** The board after the handicap stones are written in order onto `b`. */
  function WithHandicaps(b: seq<int>, handicaps: seq<int>): (r: seq<int>)
    requires forall k :: 0 <= k < |handicaps| ==> 0 <= handicaps[k] < |b|
    ensures |r| == |b|
    ensures forall i :: 0 <= i < |b| ==> r[i] == if i in handicaps then BLACK else b[i]
  {
    if handicaps == [] then b
    else
      var last := |handicaps| - 1;
      assert forall i :: i in handicaps <==> i in handicaps[..last] || i == handicaps[last];
      WithHandicaps(b, handicaps[..last])[handicaps[last] := BLACK]
  }

  /** The position before the first move: the handicap stones on an empty board, White to move after them. */
  function Setup(size: nat, handicaps: seq<int>): (p: Position)
    requires forall k :: 0 <= k < |handicaps| ==> 0 <= handicaps[k] < size * size
  {
    Position(WithHandicaps(seq(size * size, _ => EMPTY), handicaps), 0, 0, if |handicaps| > 0 then WHITE else BLACK)
  }

  /**
   * One move of the replay: a resignation changes nothing; a pass hands
   * the turn over; a stone is written, the dead opposing groups next to it
   * are removed and counted, and the turn goes to the other colour.
   */
  ghost function Step(p: Position, m: Move, size: nat): (r: Position)
    requires size > 0 && |p.board| == size * size && Playable(m, size)
    ensures |r.board| == size * size
    ensures Stones(p.board) ==> Stones(r.board)
    ensures r.capturedBlack >= p.capturedBlack && r.capturedWhite >= p.capturedWhite
  {
    if m.index == -2 then p
    else if m.index == -1 then p.(currentTurn := OppositeColour(p.currentTurn))
    else
      var placed := p.board[m.index := m.colour];
      var dead := Dead(placed, size, m.index, m.colour);
      Position(ClearCells(placed, dead),
               p.capturedBlack + (if m.colour == WHITE then |dead| else 0),
               p.capturedWhite + (if m.colour == BLACK then |dead| else 0),
               OppositeColour(m.colour))
  }

  /** The position after the moves of the log, applied in order after the setup. */
  ghost function Replayed(moves: seq<Move>, size: nat, handicaps: seq<int>): (p: Position)
    requires size > 0
    requires forall k :: 0 <= k < |handicaps| ==> 0 <= handicaps[k] < size * size
    requires forall k :: 0 <= k < |moves| ==> Playable(moves[k], size)
    ensures |p.board| == size * size && Stones(p.board)
  {
    if moves == [] then Setup(size, handicaps)
    else Step(Replayed(moves[..|moves| - 1], size, handicaps), moves[|moves| - 1], size)
  }

  /**
   * replayMovesUpTo: the position after the first `index` moves of the
   * log (none when `index` is not positive).
   */
  method ReplayMovesUpTo(moves: seq<Move>, index: int, size: nat, handicaps: seq<int>) returns (r: Position)
    requires size > 0 && index <= |moves|
    requires forall k :: 0 <= k < |handicaps| ==> 0 <= handicaps[k] < size * size
    requires forall k :: 0 <= k < index ==> Playable(moves[k], size)
    ensures r == Replayed(moves[..if index < 0 then 0 else index], size, handicaps)
  {
    r := SetUp(size, handicaps);
    assert moves[..0] == [];
    var i := 0;
    while i < index
      invariant 0 <= i <= if index < 0 then 0 else index
      invariant ReachedAfter(r, moves, i, size, handicaps)
    {
      ReplayedStep(r, moves, i, size, handicaps);
      r := ApplyMove(r, moves[i], size);
      i := i + 1;
    }
  }

  /** `r` is the position after the first `i` moves of the log. */
  ghost predicate ReachedAfter(r: Position, moves: seq<Move>, i: int, size: nat, handicaps: seq<int>) {
    && size > 0 && 0 <= i <= |moves|
    && (forall k :: 0 <= k < |handicaps| ==> 0 <= handicaps[k] < size * size)
    && (forall k :: 0 <= k < i ==> Playable(moves[k], size))
    && r == Replayed(moves[..i], size, handicaps)
  }

  /** Replaying one more move of the log applies that move to the position reached so far. */
  lemma ReplayedStep(r: Position, moves: seq<Move>, i: int, size: nat, handicaps: seq<int>)
    requires ReachedAfter(r, moves, i, size, handicaps) && i < |moves| && Playable(moves[i], size)
    ensures |r.board| == size * size && Stones(r.board)
    ensures ReachedAfter(Step(r, moves[i], size), moves, i + 1, size, handicaps)
  {
    assert moves[..i + 1][..i] == moves[..i];
    assert moves[..i + 1][i] == moves[i];
  }

  /** The start of replayMovesUpTo: an empty board, the handicap stones, and the first turn. */
  method SetUp(size: nat, handicaps: seq<int>) returns (p: Position)
    requires forall k :: 0 <= k < |handicaps| ==> 0 <= handicaps[k] < size * size
    ensures p == Setup(size, handicaps)
  {
    var board := seq(size * size, _ => EMPTY);
    var currentTurn := BLACK;
    for k := 0 to |handicaps|
      invariant board == WithHandicaps(seq(size * size, _ => EMPTY), handicaps[..k])
    {
      assert handicaps[..k + 1][..k] == handicaps[..k];
      board := board[handicaps[k] := BLACK];
    }
    assert handicaps[..|handicaps|] == handicaps;
    if |handicaps| > 0 {
      currentTurn := WHITE;
    }
    p := Position(board, 0, 0, currentTurn);
  }

  /** One turn of replayMovesUpTo's move loop. */
  method ApplyMove(p: Position, move: Move, size: nat) returns (q: Position)
    requires size > 0 && |p.board| == size * size && Stones(p.board) && Playable(move, size)
    ensures q == Step(p, move, size)
  {
    if move.index == -2 {
      q := p;
    } else if move.index == -1 {
      q := p.(currentTurn := OppositeColour(p.currentTurn));
    } else {
      var board, black, white := PlayStone(p.board, move.index, move.colour, size);
      q := Position(board, p.capturedBlack + black, p.capturedWhite + white, OppositeColour(move.colour));
    }
  }

  /**
   * What a placement does to the board: the new stone stays, and every
   * other cell that changes held an opposing stone and is now empty; the
   * prisoners of the opposing colour grow by the stones removed, and the
   * turn passes to the other colour.
   */
  lemma PlacementEffect(p: Position, m: Move, size: nat)
    requires size > 0 && |p.board| == size * size && 0 <= m.index < size * size
    requires m.colour == BLACK || m.colour == WHITE
    ensures var r := Step(p, m, size);
            var opp := OppositeColour(m.colour);
            && r.board[m.index] == m.colour
            && (forall i :: 0 <= i < |r.board| && i != m.index && r.board[i] != p.board[i] ==>
                  p.board[i] == opp && r.board[i] == EMPTY)
            && |set i | 0 <= i < |r.board| && i != m.index && r.board[i] != p.board[i]|
                 == (r.capturedBlack - p.capturedBlack) + (r.capturedWhite - p.capturedWhite)
            && r.currentTurn == opp
  {
    var placed := p.board[m.index := m.colour];
    var opp := OppositeColour(m.colour);
    var dead := Dead(placed, size, m.index, m.colour);
    DeadAroundShape(placed, Adjacency(size), AdjacentIndices(m.index, size), opp);
    var r := Step(p, m, size);
    assert (set i | 0 <= i < |r.board| && i != m.index && r.board[i] != p.board[i]) == dead;
  }

  /** The setup holds a black stone on each handicap cell and nothing else, and White moves first after handicap stones. */
  lemma SetupShape(size: nat, handicaps: seq<int>)
    requires forall k :: 0 <= k < |handicaps| ==> 0 <= handicaps[k] < size * size
    ensures var p := Setup(size, handicaps);
            && |p.board| == size * size
            && (forall i :: 0 <= i < size * size ==> p.board[i] == if i in handicaps then BLACK else EMPTY)
            && (p.currentTurn == WHITE <==> handicaps != [])
            && p.capturedBlack == 0 && p.capturedWhite == 0
  {
  }

  /** Resignations are skipped; a pass only hands the turn over. */
  lemma ReplayPassAndResign(moves: seq<Move>, size: nat, handicaps: seq<int>, m: Move)
    requires size > 0
    requires forall k :: 0 <= k < |handicaps| ==> 0 <= handicaps[k] < size * size
    requires forall k :: 0 <= k < |moves| ==> Playable(moves[k], size)
    requires m.index == -1 || m.index == -2
    ensures var before := Replayed(moves, size, handicaps);
            var after := Replayed(moves + [m], size, handicaps);
            && after.board == before.board
            && after.capturedBlack == before.capturedBlack && after.capturedWhite == before.capturedWhite
            && after.currentTurn == if m.index == -1 then OppositeColour(before.currentTurn) else before.currentTurn
  {
    assert (moves + [m])[..|moves|] == moves;
  }

  /** Prisoner counts never go down during a replay. */
  lemma {:induction false} CapturesGrow(moves: seq<Move>, k: nat, size: nat, handicaps: seq<int>)
    requires size > 0 && k <= |moves|
    requires forall j :: 0 <= j < |handicaps| ==> 0 <= handicaps[j] < size * size
    requires forall j :: 0 <= j < |moves| ==> Playable(moves[j], size)
    ensures Replayed(moves[..k], size, handicaps).capturedBlack <= Replayed(moves, size, handicaps).capturedBlack
    ensures Replayed(moves[..k], size, handicaps).capturedWhite <= Replayed(moves, size, handicaps).capturedWhite
    decreases |moves| - k
  {
    if k < |moves| {
      var last := |moves| - 1;
      var prefix := moves[..last];
      CapturesGrow(prefix, k, size, handicaps);
      assert prefix[..k] == moves[..k];
      assert Replayed(moves, size, handicaps) == Step(Replayed(prefix, size, handicaps), moves[last], size);
    } else {
      assert moves[..k] == moves;
    }
  }
}
