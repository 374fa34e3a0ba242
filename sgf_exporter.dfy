/**
 * The SGF export of a game record (app/static/sgf_exporter.js): the root
 * node's properties (game type, format, board size, komi, handicap stones,
 * result) followed by one node per recorded move.
 */
module Sgf {
  import opened Wrappers
  import opened Grid
  import opened Text
  import Replay

  /** A move of the record, the same record the replay reads: a board index, or PASS / RESIGN, and the mover's colour code. */
  type Move = Replay.Move

  const PASS := -1
  const RESIGN := -2

  /**
   * The fields of the serialised game the exporter reads. Komi is counted
   * in half points (13 is 6.5); None stands for a missing field. A missing
   * move list or placement list is the empty sequence.
   */
  datatype Game = Game(
    boardSize: nat,
    komi: Option<int>,
    moves: seq<Move>,
    handicapPlacements: seq<int>,
    gameOver: bool,
    gameOverReason: Option<string>,
    winner: Option<string>,
    players: map<string, int>,
    finalScore: Option<(int, int)>)

  /** Every coordinate letter 'a' + n with n below the board size is a character. */
  predicate Lettered(size: int) {
    0 < size && 'a' as int + size <= 0xD800
  }

  /** A move the record can hold: a pass, a resignation or a cell of the board. */
  predicate Recordable(m: Move, size: int) {
    m.index == PASS || m.index == RESIGN || 0 <= m.index < size * size
  }

  predicate Exportable(g: Game) {
    && Lettered(g.boardSize)
    && (forall k :: 0 <= k < |g.moves| ==> Recordable(g.moves[k], g.boardSize))
    && (forall k :: 0 <= k < |g.handicapPlacements| ==> 0 <= g.handicapPlacements[k] < g.boardSize * g.boardSize)
  }

  // ---------------------------------------------------------------------
  // Numbers as JavaScript prints them

  /** How a number of half points prints: "6.5", "7", "-0.5". */
  function HalfPoints(h: int): string {
    (if h < 0 then "-" else "") + Decimal(Abs(h) / 2) + (if Abs(h) % 2 == 1 then ".5" else "")
  }

  /** `gameState.komi || 6.5`: a missing komi and a komi of 0 both give 6.5. */
  function Komi(g: Game): (r: int)
    ensures r != 0
    ensures g.komi.None? || g.komi == Some(0) ==> r == 13
    ensures g.komi.Some? && g.komi.value != 0 ==> r == g.komi.value
  {
    if g.komi.None? || g.komi.value == 0 then 13 else g.komi.value
  }

  // ---------------------------------------------------------------------
  // Colours and coordinates

  /** getColor: colour code 1 is Black, every other code White. */
  function ColourLetter(colour: int): (c: char)
    ensures c == 'B' <==> colour == 1
    ensures c == 'B' || c == 'W'
  {
    if colour == 1 then 'B' else 'W'
  }

  function Letter(n: int): char
    requires 0 <= n && 'a' as int + n < 0xD800
  {
    ('a' as int + n) as char
  }

  /** getCoords: the column letter, then the row letter, counting from 'a'. */
  function Coords(index: int, size: int): (r: string)
    requires Lettered(size) && 0 <= index < size * size
    ensures |r| == 2
  {
    CellBounds(index, size);
    [Letter(index % size), Letter(index / size)]
  }

  /** The cell two coordinate letters name, if they are on the board. */
  function DecodeCoords(t: string, size: int): Option<int>
    requires |t| == 2 && size > 0
  {
    var x := t[0] as int - 'a' as int;
    var y := t[1] as int - 'a' as int;
    if 0 <= x < size && 0 <= y < size then Some(y * size + x) else None
  }

  /** Coordinates name their cell, and the only letters naming a cell are its coordinates. */
  lemma CoordsRoundTrip(index: int, size: int, t: string)
    requires Lettered(size) && 0 <= index < size * size && |t| == 2
    ensures DecodeCoords(Coords(index, size), size) == Some(index)
    ensures DecodeCoords(t, size) == Some(index) ==> t == Coords(index, size)
  {
    CellBounds(index, size);
    var x, y := index % size, index / size;
    assert index == y * size + x;
    if DecodeCoords(t, size) == Some(index) {
      var x', y' := t[0] as int - 'a' as int, t[1] as int - 'a' as int;
      CellOf(size, x', y');
    }
  }

  // ---------------------------------------------------------------------
  // The root node's properties

  /** `[xy]` for each cell of a list, joined. */
  function Points(cells: seq<int>, size: int): (s: string)
    requires Lettered(size) && forall k :: 0 <= k < |cells| ==> 0 <= cells[k] < size * size
    ensures |s| == 4 * |cells|
  {
    if cells == [] then [] else "[" + Coords(cells[0], size) + "]" + Points(cells[1..], size)
  }

  /** HA with the stone count and AB with their points, only when handicap stones were placed. */
  function Handicap(g: Game): string
    requires Exportable(g)
  {
    if |g.handicapPlacements| > 0 then
      "HA[" + Decimal(|g.handicapPlacements|) + "]" + "AB" + Points(g.handicapPlacements, g.boardSize)
    else ""
  }

  /** players?.[winner]: the colour code of the winner, when the winner is a seated player. */
  function WinnerColour(g: Game): (r: Option<int>)
    ensures r.Some? <==> g.winner.Some? && g.winner.value in g.players
    ensures r.Some? ==> r.value == g.players[g.winner.value]
  {
    if g.winner.Some? && g.winner.value in g.players then Some(g.players[g.winner.value]) else None
  }

  /** The RE property, or nothing when the record carries no result. */
  function Result(g: Game): (r: string)
    ensures !g.gameOver ==> r == ""
    ensures r != "" ==> |r| >= 5 && r[..3] == "RE[" && r[|r| - 1] == ']'
  {
    if !g.gameOver then ""
    else if g.gameOverReason == Some("resign") then
      "RE[" + (if WinnerColour(g) == Some(1) then "B+R" else "W+R") + "]"
    else if g.gameOverReason == Some("timeout") then
      "RE[" + (if WinnerColour(g) == Some(1) then "B+T" else "W+T") + "]"
    else if g.gameOverReason == Some("double_pass") && g.finalScore.Some? then
      var (black, white) := g.finalScore.value;
      if black == white then "RE[0]"
      else "RE[" + [if black > white then 'B' else 'W'] + "+" + Decimal(Abs(black - white)) + "]"
    else ""
  }

  /** The properties every export starts with: game type Go, format 4, the board size and the komi. */
  function Opening(g: Game): string {
    "GM[1]" + "FF[4]" + "SZ[" + Decimal(g.boardSize) + "]" + "KM[" + HalfPoints(Komi(g)) + "]"
  }

  function Properties(g: Game): string
    requires Exportable(g)
  {
    Opening(g) + Handicap(g) + Result(g)
  }

  // ---------------------------------------------------------------------
  // Move nodes

  /** The node one move adds: `;B[]` for a pass, nothing for a resignation, `;B[xy]` otherwise. */
  function Node(m: Move, size: int): (s: string)
    requires Lettered(size) && Recordable(m, size)
    ensures m.index == RESIGN <==> s == []
  {
    if m.index == PASS then [';', ColourLetter(m.colour), '[', ']']
    else if m.index == RESIGN then []
    else [';', ColourLetter(m.colour), '['] + Coords(m.index, size) + [']']
  }

  function Nodes(moves: seq<Move>, size: int): string
    requires Lettered(size) && forall k :: 0 <= k < |moves| ==> Recordable(moves[k], size)
  {
    if moves == [] then [] else Node(moves[0], size) + Nodes(moves[1..], size)
  }

  /** The whole export: `(;`, the root properties, the move nodes, `)`. */
  function Export(g: Game): string
    requires Exportable(g)
  {
    "(;" + Properties(g) + Nodes(g.moves, g.boardSize) + ")"
  }

  /** Appending a move appends its node. */
  lemma {:induction false} NodesSnoc(moves: seq<Move>, m: Move, size: int)
    requires Lettered(size) && Recordable(m, size)
    requires forall k :: 0 <= k < |moves| ==> Recordable(moves[k], size)
    ensures Nodes(moves + [m], size) == Nodes(moves, size) + Node(m, size)
  {
    if moves == [] {
      assert moves + [m] == [m];
    } else {
      assert (moves + [m])[1..] == moves[1..] + [m];
      NodesSnoc(moves[1..], m, size);
    }
  }

  /** The nodes of one more move of the record. */
  lemma NodesStep(moves: seq<Move>, k: int, size: int)
    requires Lettered(size) && forall j :: 0 <= j < |moves| ==> Recordable(moves[j], size)
    requires 0 <= k < |moves|
    ensures Nodes(moves[..k + 1], size) == Nodes(moves[..k], size) + Node(moves[k], size)
  {
    assert moves[..k + 1] == moves[..k] + [moves[k]];
    NodesSnoc(moves[..k], moves[k], size);
  }

  /**
   * generateSGF: the root properties, then a loop over the moves that
   * appends a node for each pass and each placed stone and skips
   * resignations, then the closing parenthesis.
   */
  method GenerateSgf(g: Game) returns (sgf: string)
    requires Exportable(g)
    ensures sgf == Export(g)
  {
    var size := g.boardSize;
    var props := RootProperties(g);
    sgf := "(;" + props;
    ghost var head := sgf;
    assert sgf == head + Nodes(g.moves[..0], size);
    for k := 0 to |g.moves|
      invariant sgf == head + Nodes(g.moves[..k], size)
    {
      NodesStep(g.moves, k, size);
      sgf := AppendNode(sgf, g.moves[k], size);
      Associative(head, Nodes(g.moves[..k], size), Node(g.moves[k], size));
    }
    assert g.moves[..|g.moves|] == g.moves;
    sgf := sgf + ")";
    Associative("(;", props, Nodes(g.moves, size));
  }

  lemma Associative(a: string, b: string, c: string)
    ensures (a + b) + c == a + (b + c)
  {
  }

  /** The `props` list of generateSGF, joined. */
  method RootProperties(g: Game) returns (props: string)
    requires Exportable(g)
    ensures props == Properties(g)
  {
    var size := g.boardSize;
    props := "GM[1]" + "FF[4]" + "SZ[" + Decimal(size) + "]" + "KM[" + HalfPoints(Komi(g)) + "]";
    assert props == Opening(g);
    var handicap := "";
    if |g.handicapPlacements| > 0 {
      handicap := "HA[" + Decimal(|g.handicapPlacements|) + "]" + "AB" + Points(g.handicapPlacements, size);
    }
    props := props + handicap + Result(g);
  }

  /** One pass of the move loop: a pass node, nothing for a resignation, or a stone node. */
  method AppendNode(sgf0: string, move: Move, size: int) returns (sgf: string)
    requires Lettered(size) && Recordable(move, size)
    ensures sgf == sgf0 + Node(move, size)
  {
    if move.index == PASS {
      sgf := sgf0 + [';', ColourLetter(move.colour), '[', ']'];
    } else if move.index == RESIGN {
      sgf := sgf0;
    } else {
      sgf := sgf0 + ([';', ColourLetter(move.colour), '['] + Coords(move.index, size) + [']']);
    }
  }

  // ---------------------------------------------------------------------
  // Reading an export back

  /** The moves a record shows: every move but the resignations, as (colour letter, index). */
  function Played(moves: seq<Move>): seq<(char, int)> {
    if moves == [] then []
    else (if moves[0].index == RESIGN then [] else [(ColourLetter(moves[0].colour), moves[0].index)])
         + Played(moves[1..])
  }

  function Resignations(moves: seq<Move>): nat {
    if moves == [] then 0 else (if moves[0].index == RESIGN then 1 else 0) + Resignations(moves[1..])
  }

  /** The record shows one node per move, less the resignations. */
  lemma {:induction false} PlayedCount(moves: seq<Move>)
    ensures |Played(moves)| == |moves| - Resignations(moves)
  {
    if moves != [] {
      PlayedCount(moves[1..]);
    }
  }

  /** Reads a run of move nodes back into (colour letter, index) pairs, index PASS for a pass. */
  function ParseNodes(s: string, size: int): Option<seq<(char, int)>>
    requires size > 0
    decreases |s|
  {
    if s == [] then Some([])
    else if |s| >= 4 && s[0] == ';' && s[2] == '[' && s[3] == ']' then
      match ParseNodes(s[4..], size)
      case None => None
      case Some(rest) => Some([(s[1], PASS)] + rest)
    else if |s| >= 6 && s[0] == ';' && s[2] == '[' && s[5] == ']' then
      match DecodeCoords(s[3..5], size)
      case None => None
      case Some(i) =>
        match ParseNodes(s[6..], size)
        case None => None
        case Some(rest) => Some([(s[1], i)] + rest)
    else None
  }

  /** One node followed by more text reads as that node's move followed by what the rest reads as. */
  lemma ParseNode(m: Move, size: int, rest: string)
    requires Lettered(size) && Recordable(m, size) && m.index != RESIGN
    ensures ParseNodes(Node(m, size) + rest, size) ==
              match ParseNodes(rest, size)
              case None => None
              case Some(r) => Some([(ColourLetter(m.colour), m.index)] + r)
  {
    var s := Node(m, size) + rest;
    if m.index == PASS {
      assert s[4..] == rest;
    } else {
      var t := Coords(m.index, size);
      assert s[3..5] == t;
      assert s[6..] == rest;
      CoordsRoundTrip(m.index, size, t);
    }
  }

  /** The move nodes read back as exactly the moves that are not resignations. */
  lemma {:induction false} NodesRoundTrip(moves: seq<Move>, size: int)
    requires Lettered(size) && forall k :: 0 <= k < |moves| ==> Recordable(moves[k], size)
    ensures ParseNodes(Nodes(moves, size), size) == Some(Played(moves))
  {
    if moves != [] {
      var rest := Nodes(moves[1..], size);
      assert Nodes(moves, size) == Node(moves[0], size) + rest;
      NodesRoundTrip(moves[1..], size);
      if moves[0].index == RESIGN {
        assert Node(moves[0], size) + rest == rest;
        assert Played(moves) == Played(moves[1..]);
      } else {
        assert Played(moves) == [(ColourLetter(moves[0].colour), moves[0].index)] + Played(moves[1..]);
        ParseNode(moves[0], size, rest);
      }
    }
  }

  /** Reads an AB point list back into cells. */
  function ParsePoints(s: string, size: int): Option<seq<int>>
    requires size > 0
    decreases |s|
  {
    if s == [] then Some([])
    else if |s| >= 4 && s[0] == '[' && s[3] == ']' then
      match DecodeCoords(s[1..3], size)
      case None => None
      case Some(i) =>
        match ParsePoints(s[4..], size)
        case None => None
        case Some(rest) => Some([i] + rest)
    else None
  }

  /** The AB list reads back as the handicap placements, in order. */
  lemma {:induction false} PointsRoundTrip(cells: seq<int>, size: int)
    requires Lettered(size) && forall k :: 0 <= k < |cells| ==> 0 <= cells[k] < size * size
    ensures ParsePoints(Points(cells, size), size) == Some(cells)
  {
    if cells != [] {
      var s := Points(cells, size);
      var t := Coords(cells[0], size);
      assert s[1..3] == t;
      assert s[4..] == Points(cells[1..], size);
      CoordsRoundTrip(cells[0], size, t);
      PointsRoundTrip(cells[1..], size);
      assert [cells[0]] + cells[1..] == cells;
    }
  }

  /** The handicap properties appear exactly when stones were placed, and then list those stones. */
  lemma HandicapShown(g: Game)
    requires Exportable(g)
    ensures Handicap(g) != "" <==> |g.handicapPlacements| > 0
    ensures |g.handicapPlacements| > 0 ==>
              var h := Handicap(g);
              var n := Decimal(|g.handicapPlacements|);
              && h[..3] == "HA[" && DecimalValue(h[3..3 + |n|]) == Some(|g.handicapPlacements|)
              && h[3 + |n|..5 + |n|] == "]A" && h[5 + |n|] == 'B'
              && ParsePoints(h[6 + |n|..], g.boardSize) == Some(g.handicapPlacements)
  {
    if |g.handicapPlacements| > 0 {
      var n := Decimal(|g.handicapPlacements|);
      var points := Points(g.handicapPlacements, g.boardSize);
      assert Handicap(g) == "HA[" + n + "]AB" + points;
      HandicapText(n, points);
      DecimalRoundTrip(|g.handicapPlacements|);
      PointsRoundTrip(g.handicapPlacements, g.boardSize);
    }
  }

  /** Where the count and the points sit in the handicap properties. */
  lemma HandicapText(n: string, points: string)
    ensures var h := "HA[" + n + "]AB" + points;
            && h[..3] == "HA[" && h[3..3 + |n|] == n
            && h[3 + |n|..5 + |n|] == "]A" && h[5 + |n|] == 'B' && h[6 + |n|..] == points
  {
    var h := "HA[" + n + "]AB" + points;
    assert h == ("HA[" + n) + ("]AB" + points);
    assert h[3..3 + |n|] == n;
  }

  /** The export opens with `(;` and the fixed properties, the size and the komi, and is closed by `)`. */
  lemma ExportFrame(g: Game)
    requires Exportable(g)
    ensures var s := Export(g);
            var head := "(;" + Opening(g);
            && |head| < |s| && s[..|head|] == head && s[|s| - 1] == ')'
  {
    var head := "(;" + Opening(g);
    var tail := Handicap(g) + Result(g);
    var nodes := Nodes(g.moves, g.boardSize);
    Associative(Opening(g), Handicap(g), Result(g));
    Associative("(;", Opening(g), tail);
    Associative(head, tail, nodes);
    var body := head + (tail + nodes);
    assert Export(g) == body + ")";
    assert (body + ")")[|body|] == ')';
    assert body[..|head|] == head;
  }

  /** The opening properties spelled out. */
  lemma OpeningText(g: Game)
    ensures Opening(g) == "GM[1]FF[4]SZ[" + Decimal(g.boardSize) + "]KM[" + HalfPoints(Komi(g)) + "]"
  {
  }

  /** Without a komi, or with a komi of 0, the export states 6.5. */
  lemma KomiDefault(g: Game)
    requires g.komi.None? || g.komi == Some(0)
    ensures HalfPoints(Komi(g)) == "6.5"
  {
    assert Decimal(6) == "6";
  }

  // ---------------------------------------------------------------------
  // The result property

  /** RE appears exactly for finished games ended by resignation, by time, or by two passes with a score. */
  lemma ResultShown(g: Game)
    ensures Result(g) != "" <==>
              && g.gameOver
              && (|| g.gameOverReason == Some("resign") || g.gameOverReason == Some("timeout")
                  || (g.gameOverReason == Some("double_pass") && g.finalScore.Some?))
  {
  }

  /**
   * After two passes the result names the colour with more points and
   * reads back as the margin between the scores; a tie is `RE[0]`.
   */
  lemma ScoredResult(g: Game)
    requires g.gameOver && g.gameOverReason == Some("double_pass") && g.finalScore.Some?
    ensures var (black, white) := g.finalScore.value;
            var re := Result(g);
            && (re == "RE[0]" <==> black == white)
            && (black != white ==>
                  && re[..3] == "RE[" && re[|re| - 1] == ']' && re[4] == '+'
                  && (re[3] == 'B' <==> black > white) && (re[3] == 'W' <==> white > black)
                  && DecimalValue(re[5..|re| - 1]) == Some(Abs(black - white)))
  {
    var (black, white) := g.finalScore.value;
    var re := Result(g);
    if black != white {
      var c := if black > white then 'B' else 'W';
      assert re == "RE[" + [c] + "+" + Decimal(Abs(black - white)) + "]";
      MarginText(c, Abs(black - white));
    } else {
      assert re == "RE[0]";
    }
  }

  /** The text of a won count, `RE[` colour `+` margin `]`, gives the margin back. */
  lemma MarginText(c: char, margin: nat)
    ensures var re := "RE[" + [c] + "+" + Decimal(margin) + "]";
            && re[..3] == "RE[" && re[3] == c && re[4] == '+' && re[|re| - 1] == ']'
            && DecimalValue(re[5..|re| - 1]) == Some(margin)
  {
    var re := "RE[" + [c] + "+" + Decimal(margin) + "]";
    assert re[5..|re| - 1] == Decimal(margin);
    DecimalRoundTrip(margin);
  }

  /** A resignation or a time loss credits Black exactly when the winner is seated as Black. */
  lemma DecidedResult(g: Game)
    requires g.gameOver && (g.gameOverReason == Some("resign") || g.gameOverReason == Some("timeout"))
    ensures var re := Result(g);
            var tag := if g.gameOverReason == Some("resign") then 'R' else 'T';
            && |re| == 7 && re[..3] == "RE[" && re[4] == '+' && re[5] == tag && re[6] == ']'
            && (re[3] == 'B' <==> WinnerColour(g) == Some(1))
            && (re[3] == 'W' <==> WinnerColour(g) != Some(1))
  {
  }

  /** A game ended on time without a recorded winner is exported as a win for White. */
  lemma TimeoutCreditsWhite(g: Game)
    requires g.gameOver && g.gameOverReason == Some("timeout") && g.winner.None?
    ensures Result(g) == "RE[W+T]"
  {
  }
}
