/**
 * The server's rules engine (app/game_state.py) and the client's replay
 * engine (app/static/go_engine.js) compute captures independently. On
 * every board size except 2 they list the same neighbours, so a stone
 * placed by the server and the same stone replayed by the client leave the
 * same board and the same prisoner counts. On the 2 x 2 board the server's
 * column test lets a cell reach a diagonal one, and the two disagree.
 */
module Agreement {
  import opened Grid
  import opened Groups
  import Engine
  import Replay

  /** Except on the 2 x 2 board, both engines give every cell the same neighbours. */
  lemma SameTables(size: nat)
    requires size > 0 && size != 2
    ensures SameNeighbours(Engine.Table(size), Replay.Adjacency(size))
  {
    forall i | 0 <= i < size * size
      ensures forall j :: j in Engine.Table(size)[i] <==> j in Replay.Adjacency(size)[i]
    {
      Engine.NeighboursOrthogonal(size, i);
      Replay.AdjacentOrthogonal(size, i);
    }
  }

  /**
   * A stone of `colour` placed on `index`: the client's replay step gives
   * the board and the prisoner counts that the server's placement
   * (GameState.PlaceStone) gives.
   */
  lemma PlacementsAgree(b: seq<int>, size: nat, index: int, colour: Engine.Colour,
                        capturedBlack: nat, capturedWhite: nat, turn: int)
    requires size > 0 && size != 2 && |b| == size * size && 0 <= index < |b|
    ensures var placed := b[index := colour.Value()];
            var dead := DeadAround(placed, Engine.Table(size), Engine.Neighbours(size, index),
                                   Engine.Opponent(colour).Value());
            Replay.Step(Replay.Position(b, capturedBlack, capturedWhite, turn), Replay.Move(index, colour.Value()), size)
              == Replay.Position(ClearCells(placed, dead),
                                 capturedBlack + (if colour == Engine.White then |dead| else 0),
                                 capturedWhite + (if colour == Engine.Black then |dead| else 0),
                                 Engine.Opponent(colour).Value())
  {
    var placed := b[index := colour.Value()];
    SameTables(size);
    Engine.NeighboursOrthogonal(size, index);
    Replay.AdjacentOrthogonal(size, index);
    SameDeadAround(placed, Engine.Table(size), Replay.Adjacency(size),
                   Engine.Neighbours(size, index), Replay.AdjacentIndices(index, size), Engine.Opponent(colour).Value());
  }

  /** The position on the 2 x 2 board: white stones on cells 0 and 3, a black stone on cell 1, cell 2 empty. */
  function Corner(): seq<int> {
    [WHITE, BLACK, EMPTY, WHITE]
  }

  /**
   * The server lists the diagonal cell 2 as a neighbour of cell 1, so the
   * black stone on cell 1 keeps a liberty there and is not captured.
   */
  lemma ServerSeesDiagonalLiberty()
    ensures 2 in Engine.Neighbours(2, 1) && !Orthogonal(2, 1, 2)
    ensures 2 in Liberties(Corner(), Engine.Table(2), Group(Corner(), Engine.Table(2), 1, BLACK))
    ensures !DeadAt(Corner(), Engine.Table(2), 1, BLACK)
  {
    var b := Corner();
    var server := Engine.Table(2);
    var G := Group(b, server, 1, BLACK);
    Engine.NeighboursMembers(2, 1);
    assert 2 in server[1];
    GroupHasStart(b, server, 1, BLACK);
    if 2 in G {
      GroupColoured(b, server, 1, BLACK, 2);
    }
    assert Touches(server, G, 2);
  }

  /**
   * The client lists only cells 0 and 3 next to cell 1, both white, so the
   * black stone on cell 1 has no liberty and is captured.
   */
  lemma ClientCapturesCorner()
    ensures Replay.AdjacentIndices(1, 2) == [0, 3]
    ensures DeadAt(Corner(), Replay.Adjacency(2), 1, BLACK)
  {
    var b := Corner();
    var client := Replay.Adjacency(2);
    assert client[1] == [0, 3];
    assert Closed(b, client, BLACK, {1});
    GroupWithin(b, client, 1, BLACK, {1});
    var H := Group(b, client, 1, BLACK);
    assert H <= {1};
  }
}
