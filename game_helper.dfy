/**
 * Handicap stones and ranks (app/game_helper.py): the star-point tables
 * that decide where handicap stones go, and the table that turns a rank
 * string such as "5k", "1d" or "3p" into a number on one scale.
 */
module Handicap {
  import opened Wrappers
  import opened Grid
  import opened Groups
  import opened Engine
  import opened Text

  // ---------------------------------------------------------------------
  // Handicap stones

  /**
   * star_points_by_size: the nine star points, as (column, row), of the
   * board sizes that support handicaps, in the order the selection table
   * refers to them.
   */
  function StarPoints(size: int): Option<seq<(int, int)>> {
    if size == 9 then Some([(2, 6), (6, 2), (2, 2), (6, 6), (2, 4), (6, 4), (4, 2), (4, 6), (4, 4)])
    else if size == 13 then Some([(3, 9), (9, 3), (3, 3), (9, 9), (3, 6), (9, 6), (6, 3), (6, 9), (6, 6)])
    else if size == 19 then Some([(3, 15), (15, 3), (3, 3), (15, 15), (3, 9), (15, 9), (9, 3), (9, 15), (9, 9)])
    else None
  }

  /** order_for_stones: for 2 to 9 stones, which star points are used, in placement order. */
  const Orders: seq<seq<int>> := [
    [0, 1],
    [0, 1, 2],
    [0, 1, 2, 3],
    [0, 1, 2, 3, 8],
    [0, 1, 2, 3, 4, 5],
    [0, 1, 2, 3, 4, 5, 8],
    [0, 1, 2, 3, 4, 5, 6, 7],
    [0, 1, 2, 3, 4, 5, 6, 7, 8]
  ]

  /** The star points of each supported size are nine distinct cells of the board. */
  lemma StarPointsShape(size: int)
    requires StarPoints(size).Some?
    ensures var points := StarPoints(size).value;
            && |points| == 9
            && (forall k :: 0 <= k < 9 ==> 0 <= points[k].0 < size && 0 <= points[k].1 < size)
            && (forall i, j :: 0 <= i < j < 9 ==> points[i] != points[j])
  {
  }

  /** The row for `count` stones picks `count` distinct star points. */
  lemma OrdersShape(count: int)
    requires 2 <= count <= 9
    ensures var row := Orders[count - 2];
            && |row| == count
            && (forall k :: 0 <= k < count ==> 0 <= row[k] < 9)
            && (forall i, j :: 0 <= i < j < count ==> row[i] != row[j])
  {
  }

  /** The stone count the placement works with: the requested count, at most 9. */
  function Clamped(handicapStones: int): (n: int)
    ensures n <= 9 && n <= handicapStones
    ensures n == 9 || n == handicapStones
  {
    if handicapStones < 9 then handicapStones else 9
  }

  /** The board index of a (column, row) point. */
  function CellIndex(size: int, point: (int, int)): int {
    point.1 * size + point.0
  }

  /** The cells handicap stones go to, in placement order, for `count` stones on a board of `size`. */
  function Placements(size: int, count: int): (r: seq<int>)
    requires StarPoints(size).Some? && 2 <= count <= 9
  {
    var points := StarPoints(size).value;
    seq(count, k requires 0 <= k < count => CellIndex(size, points[Orders[count - 2][k]]))
  }

  /** The placements are `count` distinct cells of the board. */
  lemma PlacementsShape(size: int, count: int)
    requires StarPoints(size).Some? && 2 <= count <= 9
    ensures var r := Placements(size, count);
            && |r| == count
            && (forall k :: 0 <= k < count ==> 0 <= r[k] < size * size)
            && (forall i, j :: 0 <= i < j < count ==> r[i] != r[j])
  {
    var points := StarPoints(size).value;
    var row := Orders[count - 2];
    var r := Placements(size, count);
    StarPointsShape(size);
    OrdersShape(count);
    forall k | 0 <= k < count ensures 0 <= r[k] < size * size {
      CellOf(size, points[row[k]].0, points[row[k]].1);
    }
    forall i, j | 0 <= i < j < count ensures r[i] != r[j] {
      var p, q := points[row[i]], points[row[j]];
      CellOf(size, p.0, p.1);
      CellOf(size, q.0, q.1);
    }
  }

  /**
   * place_handicap_stones. On a board size without star points, or with
   * fewer than two stones after clamping to 9, nothing changes and no
   * placement list is recorded. Otherwise black stones go on the selected
   * star points, the list of their cells is recorded, and White moves.
   */
  method PlaceHandicapStones(game: GameState, handicapStones: int) returns (placements: Option<seq<int>>)
    requires game.Valid()
    modifies game`board, game`currentTurn
    ensures game.Valid()
    ensures StarPoints(game.boardSize).None? || Clamped(handicapStones) < 2 ==>
              placements == None && game.board == old(game.board) && game.currentTurn == old(game.currentTurn)
    ensures StarPoints(game.boardSize).Some? && Clamped(handicapStones) >= 2 ==>
              && placements == Some(Placements(game.boardSize, Clamped(handicapStones)))
              && |game.board| == |old(game.board)|
              && (forall i :: 0 <= i < |game.board| ==>
                    game.board[i] == if i in placements.value then BLACK else old(game.board)[i])
              && game.currentTurn == White
  {
    var size := game.boardSize;
    var table := StarPoints(size);
    if table.None? {
      return None;
    }
    var count := Clamped(handicapStones);
    if count < 2 {
      return None;
    }
    var selected := Orders[count - 2];
    var points := table.value;
    PlacementsShape(size, count);
    ghost var target := Placements(size, count);
    var placed: seq<int> := [];
    for k := 0 to |selected|
      invariant game.Valid() && |game.board| == |old(game.board)|
      invariant placed == target[..k]
      invariant forall i :: 0 <= i < |game.board| ==>
                  game.board[i] == if i in placed then BLACK else old(game.board)[i]
    {
      var point := points[selected[k]];
      var index := point.1 * size + point.0;
      assert index == target[k];
      game.board := game.board[index := BLACK];
      placed := placed + [index];
    }
    assert placed == target;
    placements := Some(placed);
    game.currentTurn := White;
  }

  // ---------------------------------------------------------------------
  // Ranks

  /**
   * The number a table key's numeral stands for: a numeral of one or two
   * decimal digits without a leading zero, which are those the filling
   * loops print.
   */
  function NumeralValue(s: string): (r: Option<int>)
    ensures r.Some? ==> 1 <= r.value <= 99
  {
    if |s| == 1 && '1' <= s[0] <= '9' then Some(s[0] as int - '0' as int)
    else if |s| == 2 && '1' <= s[0] <= '9' && '0' <= s[1] <= '9' then
      Some(10 * (s[0] as int - '0' as int) + (s[1] as int - '0' as int))
    else None
  }

  /** The numerals of 1 to 99 spelled out. */
  lemma SmallDecimal(n: int)
    requires 1 <= n <= 99
    ensures Decimal(n) == if n < 10 then [Digit(n)] else [Digit(n / 10), Digit(n % 10)]
  {
    if n >= 10 {
      assert Decimal(n / 10) == [Digit(n / 10)];
    }
  }

  /** Reading back a numeral gives its number. */
  lemma NumeralRoundTrip(n: int)
    requires 1 <= n <= 99
    ensures NumeralValue(Decimal(n)) == Some(n)
  {
    SmallDecimal(n);
    if n >= 10 {
      assert n == 10 * (n / 10) + n % 10;
    }
  }

  /** The only numeral the table reads as a number is the one printed for it. */
  lemma NumeralCanonical(n: int, s: string)
    requires 1 <= n <= 99 && NumeralValue(s) == Some(n)
    ensures Decimal(n) == s
  {
    SmallDecimal(n);
    if |s| == 1 {
      assert Digit(n) == s[0];
      assert s == [s[0]];
    } else {
      var a, b := s[0] as int - '0' as int, s[1] as int - '0' as int;
      assert n == 10 * a + b && 0 <= b < 10;
      assert n / 10 == a && n % 10 == b;
      assert Digit(a) == s[0] && Digit(b) == s[1];
      assert s == [s[0], s[1]];
    }
  }

  /**
   * The rank grammar: "<n>k" for 30 >= n >= 1 is 30 - n, "<n>d" for 1 to 9
   * is 29 + n, and "<n>p" for 1 to 9 is 38 + n; nothing else is a rank.
   */
  function Rank(s: string): (r: Option<int>)
    ensures r.Some? ==> 0 <= r.value <= 47
  {
    if |s| < 2 then None
    else
      var n := NumeralValue(s[..|s| - 1]);
      var kind := s[|s| - 1];
      if n.None? then None
      else if kind == 'k' && n.value <= 30 then Some(30 - n.value)
      else if kind == 'd' && n.value <= 9 then Some(29 + n.value)
      else if kind == 'p' && n.value <= 9 then Some(38 + n.value)
      else None
  }

  /** The table maps exactly the ranks, each to its number. */
  ghost predicate IsRankTable(table: map<string, int>) {
    && (forall s :: s in table <==> Rank(s).Some?)
    && (forall s :: s in table ==> table[s] == Rank(s).value)
  }

  /** A numeral followed by a rank letter is read back as that numeral and letter. */
  lemma RankOfNumeral(n: int, kind: char)
    requires 1 <= n <= 99
    ensures var s := Decimal(n) + [kind];
            && s[..|s| - 1] == Decimal(n) && s[|s| - 1] == kind
            && NumeralValue(s[..|s| - 1]) == Some(n)
  {
    var s := Decimal(n) + [kind];
    assert s[..|s| - 1] == Decimal(n);
    NumeralRoundTrip(n);
  }

  /**
   * The module-level loops that fill RANK_TO_NUMBER: kyu ranks from 30k
   * down to 1k, then dan ranks 1d to 9d, then professional ranks 1p to 9p.
   */
  method BuildRankTable() returns (table: map<string, int>)
    ensures IsRankTable(table)
  {
    table := AddKyu(map[]);
    table := AddDan(table);
    table := AddPro(table);
    TableComplete(table);
  }

  /** `for i in range(30, 0, -1)`: the kyu ranks 30k down to 1k. */
  method AddKyu(table0: map<string, int>) returns (table: map<string, int>)
    requires Sound(table0)
    ensures Sound(table) && Listed(table, 'k', 1, 31)
  {
    table := table0;
    var i := 30;
    while i > 0
      invariant 0 <= i <= 30
      invariant Sound(table) && Listed(table, 'k', i + 1, 31)
    {
      RankOfEachNumeral(i);
      table := AddRank(table, i, 'k', 30 - i, i + 1, 31);
      i := i - 1;
    }
  }

  /** `for i in range(1, 10)`: the dan ranks 1d to 9d. */
  method AddDan(table0: map<string, int>) returns (table: map<string, int>)
    requires Sound(table0) && Listed(table0, 'k', 1, 31)
    ensures Sound(table) && Listed(table, 'k', 1, 31) && Listed(table, 'd', 1, 10)
  {
    table := table0;
    for i := 1 to 10
      invariant Sound(table) && Listed(table, 'k', 1, 31) && Listed(table, 'd', 1, i)
    {
      RankOfEachNumeral(i);
      table := AddRank(table, i, 'd', 29 + i, 1, 31);
    }
  }

  /** `for i in range(1, 10)`: the professional ranks 1p to 9p. */
  method AddPro(table0: map<string, int>) returns (table: map<string, int>)
    requires Sound(table0) && Listed(table0, 'k', 1, 31) && Listed(table0, 'd', 1, 10)
    ensures Sound(table) && Listed(table, 'k', 1, 31) && Listed(table, 'd', 1, 10) && Listed(table, 'p', 1, 10)
  {
    table := table0;
    for i := 1 to 10
      invariant Sound(table) && Listed(table, 'k', 1, 31) && Listed(table, 'd', 1, 10)
      invariant Listed(table, 'p', 1, i)
    {
      RankOfEachNumeral(i);
      table := AddRank(table, i, 'p', 38 + i, 1, 31);
    }
  }

  /** A sound table listing every kyu, dan and professional numeral holds exactly the ranks. */
  lemma TableComplete(table: map<string, int>)
    requires Sound(table) && Listed(table, 'k', 1, 31) && Listed(table, 'd', 1, 10) && Listed(table, 'p', 1, 10)
    ensures IsRankTable(table)
  {
    forall s | Rank(s).Some? ensures s in table {
      RankIsNumeral(s);
    }
  }

  /** Every entry of the table is a rank mapped to its number. */
  ghost predicate Sound(table: map<string, int>) {
    forall s :: s in table ==> Rank(s).Some? && table[s] == Rank(s).value
  }

  /** The ranks with numerals lo up to hi - 1 and letter `kind` are in the table. */
  ghost predicate Listed(table: map<string, int>, kind: char, lo: int, hi: int) {
    forall n :: lo <= n < hi && 1 <= n <= 99 ==> Decimal(n) + [kind] in table
  }

  /**
   * One assignment of the filling loops: `table[f"{n}{kind}"] = value`,
   * which keeps the table sound and extends the listed ranges.
   */
  method AddRank(table0: map<string, int>, n: int, kind: char, value: int, lo: int, hi: int)
      returns (table: map<string, int>)
    requires 1 <= n <= 99 && Sound(table0) && Rank(Decimal(n) + [kind]) == Some(value)
    ensures table == table0[Decimal(n) + [kind] := value] && Sound(table)
    ensures forall kind', lo', hi' :: Listed(table0, kind', lo', hi') ==> Listed(table, kind', lo', hi')
    ensures Listed(table0, kind, n + 1, hi) ==> Listed(table, kind, n, hi)
    ensures Listed(table0, kind, lo, n) ==> Listed(table, kind, lo, n + 1)
  {
    table := table0[Decimal(n) + [kind] := value];
  }

  /** Every rank is written as the numeral of its count and a rank letter. */
  lemma RankIsNumeral(s: string)
    requires Rank(s).Some?
    ensures var n := NumeralValue(s[..|s| - 1]).value;
            && s == Decimal(n) + [s[|s| - 1]]
            && (s[|s| - 1] == 'k' ==> 1 <= n <= 30)
            && (s[|s| - 1] != 'k' ==> 1 <= n <= 9 && (s[|s| - 1] == 'd' || s[|s| - 1] == 'p'))
  {
    var n := NumeralValue(s[..|s| - 1]).value;
    NumeralCanonical(n, s[..|s| - 1]);
    assert s == s[..|s| - 1] + [s[|s| - 1]];
  }

  /**
   * str.lower on one character, as far as it can matter for the table:
   * the ASCII capitals, and the Kelvin sign, whose lower case is 'k'.
   */
  function LowerChar(c: char): char {
    if 'A' <= c <= 'Z' then (c as int - 'A' as int + 'a' as int) as char
    else if c as int == 0x212a then 'k'
    else c
  }

  function Lower(s: string): (r: string)
    ensures |r| == |s| && forall k :: 0 <= k < |s| ==> r[k] == LowerChar(s[k])
  {
    seq(|s|, k requires 0 <= k < |s| => LowerChar(s[k]))
  }

  /** rank_to_number: the rank grammar applied to the trimmed, lower-cased input; None when it is no rank. */
  function RankToNumber(table: map<string, int>, rank: string): (r: Option<int>)
    requires IsRankTable(table)
    ensures r == Rank(Lower(Strip(rank)))
  {
    var key := Lower(Strip(rank));
    if key in table then Some(table[key]) else None
  }

  /** The ends of each rank range. */
  lemma RankScale()
    ensures Rank("30k") == Some(0) && Rank("1k") == Some(29)
    ensures Rank("1d") == Some(30) && Rank("9d") == Some(38)
    ensures Rank("1p") == Some(39) && Rank("9p") == Some(47)
    ensures Rank("31k") == None && Rank("10d") == None && Rank("0k") == None && Rank("05k") == None
  {
    assert "30k"[..2] == "30";
    assert "31k"[..2] == "31";
    assert "10d"[..2] == "10";
    assert "05k"[..2] == "05";
  }

  /** Each kyu, dan and professional numeral gets its place on the one scale. */
  lemma RankOfEachNumeral(n: int)
    ensures 1 <= n <= 30 ==> Rank(Decimal(n) + "k") == Some(30 - n)
    ensures 1 <= n <= 9 ==> Rank(Decimal(n) + "d") == Some(29 + n) && Rank(Decimal(n) + "p") == Some(38 + n)
  {
    if 1 <= n <= 30 {
      RankOfNumeral(n, 'k');
      RankOfNumeral(n, 'd');
      RankOfNumeral(n, 'p');
    }
  }
}
