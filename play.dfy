/** The cell actions of the main loop: the left-click reveal, the
    right-click mark cycle with its Mines_Found counter, the mine counter
    shown above the board and the win test, on a game object that holds the
    state the source keeps in globals. */
module Play {
  import opened Board
  import opened Tally
  import opened Generate
  import opened FloodFill

  /** count_mines: NumMines less one for each flag; negative when the player
      has placed more flags than there are mines. */
  method CountMines(cover: array<int>) returns (count: int)
    ensures count == NumMines - CountOf(cover[..], FlagId)
  {
    count := NumMines;
    for i := 0 to cover.Length
      invariant count == NumMines - CountOf(cover[..i], FlagId)
    {
      assert cover[..i + 1] == cover[..i] + [cover[i]];
      CountAppend(cover[..i], cover[i], FlagId);
      if cover[i] == FlagId {
        count := count - 1;
      }
    }
    assert cover[..cover.Length] == cover[..];
  }

  /** With flags on exactly the mine cells the counter shows 0. */
  lemma RemainingZeroWhenMinesFlagged(c: seq<int>, f: seq<int>)
    requires IsBoard(f) && |c| == Cells
    requires forall x :: 0 <= x < Cells ==> (c[x] == FlagId <==> f[x] == MineId)
    ensures NumMines - CountOf(c, FlagId) == 0
  {
    CountMatch(c, FlagId, f, MineId);
  }

  /** The right-click cycle: cover, flag, question mark, cover again. */
  function NextMark(c: int): int {
    if c == CoverId then FlagId
    else if c == FlagId then QuestionMarkId
    else if c == QuestionMarkId then CoverId
    else c
  }

  lemma MarkCycle(c: int)
    ensures CoverId <= c <= QuestionMarkId ==> NextMark(c) != c && NextMark(NextMark(NextMark(c))) == c
    ensures !(CoverId <= c <= QuestionMarkId) ==> NextMark(c) == c
  {
  }

  /** Number of cells that hold a mine and show a flag. */
  ghost function FlaggedMines(c: seq<int>, f: seq<int>): nat
    requires |c| == |f|
  {
    if c == [] then 0
    else (if c[0] == FlagId && f[0] == MineId then 1 else 0) + FlaggedMines(c[1..], f[1..])
  }

  lemma {:induction false} FlaggedMinesUpdate(c: seq<int>, f: seq<int>, i: int, v: int)
    requires |c| == |f| && 0 <= i < |c|
    ensures FlaggedMines(c[i := v], f) == FlaggedMines(c, f)
      - (if c[i] == FlagId && f[i] == MineId then 1 else 0) + (if v == FlagId && f[i] == MineId then 1 else 0)
  {
    if i > 0 {
      assert c[i := v][1..] == c[1..][i - 1 := v];
      FlaggedMinesUpdate(c[1..], f[1..], i - 1, v);
    } else {
      assert c[i := v][1..] == c[1..];
    }
  }

  /** Only the flagged mine cells matter to the count. */
  lemma {:induction false} FlaggedMinesFrame(c: seq<int>, d: seq<int>, f: seq<int>)
    requires |c| == |d| == |f|
    requires forall x :: 0 <= x < |c| && f[x] == MineId ==> (c[x] == FlagId <==> d[x] == FlagId)
    ensures FlaggedMines(c, f) == FlaggedMines(d, f)
  {
    if c != [] {
      FlaggedMinesFrame(c[1..], d[1..], f[1..]);
    }
  }

  /** At most every mine is flagged, and the count reaches the number of
      mines exactly when every mine is flagged. */
  lemma {:induction false} FlaggedMinesAtMost(c: seq<int>, f: seq<int>)
    requires |c| == |f|
    ensures FlaggedMines(c, f) <= CountOf(f, MineId)
    ensures FlaggedMines(c, f) == CountOf(f, MineId) <==> forall x :: 0 <= x < |f| && f[x] == MineId ==> c[x] == FlagId
  {
    if c != [] {
      FlaggedMinesAtMost(c[1..], f[1..]);
      if FlaggedMines(c, f) == CountOf(f, MineId) {
        forall x | 0 <= x < |f| && f[x] == MineId
          ensures c[x] == FlagId
        {
          if x > 0 {
            assert f[1..][x - 1] == f[x];
          }
        }
      }
    }
  }

  /** The win test of the main loop holds, for a counter that matches the
      flags, exactly when every mine is flagged and no cell is still plainly
      covered: question-marked cells and flags on cells that are not mines
      do not prevent a win. */
  lemma WinTestMeans(c: seq<int>, f: seq<int>, minesFound: int)
    requires IsBoard(f) && |c| == Cells
    requires minesFound == FlaggedMines(c, f)
    ensures (minesFound == NumMines && CoverId !in c) <==>
      (forall x :: 0 <= x < Cells && f[x] == MineId ==> c[x] == FlagId) && (forall x :: 0 <= x < Cells ==> c[x] != CoverId)
  {
    FlaggedMinesAtMost(c, f);
  }

  /** One cell of a game in progress or over: it shows its (non-mine) field
      value, is covered, flagged or question-marked, or is an exploded mine. */
  predicate CellOk(c: int, f: int) {
    (c == f && f != MineId) || CoverId <= c <= QuestionMarkId || (c == ExplosionId && f == MineId)
  }

  /** With ten mines and one cell showing 0, the cover sums to less than the
      first checksum of clear_tile, so its loop runs at least once. */
  lemma {:induction false} CoverSumBound(c: seq<int>, f: seq<int>)
    requires |c| == |f|
    requires forall x :: 0 <= x < |c| ==> c[x] <= QuestionMarkId || (c[x] <= ExplosionId && f[x] == MineId)
    ensures Sum(c) <= QuestionMarkId * |c| + CountOf(f, MineId)
  {
    if c != [] {
      CoverSumBound(c[1..], f[1..]);
    }
  }

  lemma CoverSumBelowFirstChecksum(c: seq<int>, f: seq<int>, index: int)
    requires IsBoard(f) && |c| == Cells && 0 <= index < Cells && c[index] == EmptyId
    requires forall x :: 0 <= x < Cells && x != index ==> CellOk(c[x], f[x])
    ensures Sum(c) < Cells * QuestionMarkId
  {
    HintRange(f);
    SumUpdate(c, index, QuestionMarkId);
    CoverSumBound(c[index := QuestionMarkId], f);
  }

  lemma SameExplosions(a: seq<int>, b: seq<int>)
    requires |a| == |b|
    requires forall x :: 0 <= x < |a| ==> (a[x] == ExplosionId <==> b[x] == ExplosionId)
    ensures ExplosionId in a <==> ExplosionId in b
  {
    if ExplosionId in a {
      var x :| 0 <= x < |a| && a[x] == ExplosionId;
      assert b[x] == ExplosionId;
    }
    if ExplosionId in b {
      var x :| 0 <= x < |b| && b[x] == ExplosionId;
      assert a[x] == ExplosionId;
    }
  }

  /** The invariant of a game: a generated field, well-formed cells, nothing
      left for the flood fill, Game_Lost exactly when a mine exploded, and a
      Mines_Found counter equal to the flagged mines plus the stale ones
      (mines that were flagged when they were clicked: the counter still
      includes them, although their cover now shows the explosion). */
  ghost predicate GameOk(f: seq<int>, c: seq<int>, minesFound: int, lost: bool, stale: set<int>) {
    IsBoard(f) && |c| == Cells &&
    (forall x :: 0 <= x < Cells ==> CellOk(c[x], f[x])) &&
    Fixpoint(c, f) &&
    (lost <==> ExplosionId in c) &&
    (forall x :: x in stale ==> 0 <= x < Cells && c[x] == ExplosionId) &&
    (stale != {} ==> lost) &&
    minesFound == FlaggedMines(c, f) + |stale|
  }

  /** An uncovered cell shows the number of mines around it. */
  lemma ShownHints(f: seq<int>, c: seq<int>, minesFound: int, lost: bool, stale: set<int>, x: int)
    requires GameOk(f, c, minesFound, lost, stale) && 0 <= x < Cells && c[x] < MineId
    ensures c[x] == AdjacentMines(f, x)
  {
    assert CellOk(c[x], f[x]);
  }

  /** Until a mine explodes there are no stale flags, so the win test
      means that every mine is flagged and no cell is plainly covered. */
  lemma WinTestInPlay(f: seq<int>, c: seq<int>, minesFound: int, stale: set<int>)
    requires GameOk(f, c, minesFound, false, stale)
    ensures (minesFound == NumMines && CoverId !in c) <==>
      (forall x :: 0 <= x < Cells && f[x] == MineId ==> c[x] == FlagId) && (forall x :: 0 <= x < Cells ==> c[x] != CoverId)
  {
    WinTestMeans(c, f, minesFound);
  }

  /** What a left click on index does to the cover: the cell shows its field
      value, or the explosion on a mine; other cells change only after a
      click on a 0, and then only from covered, flagged or question-marked
      to their (non-mine) field value, and each such cell is connected to
      the clicked cell by a chain of neighbours that show 0; clicking a cell
      that already shows its value changes nothing. */
  ghost predicate RevealEffect(before: seq<int>, after: seq<int>, f: seq<int>, index: int)
    requires |before| == |after| == |f| == Cells && 0 <= index < Cells
  {
    after[index] == (if f[index] == MineId then ExplosionId else f[index]) &&
    (f[index] != EmptyId ==> forall x :: 0 <= x < Cells && x != index ==> after[x] == before[x]) &&
    (forall x :: 0 <= x < Cells && x != index && after[x] != before[x] ==>
       f[index] == EmptyId && before[x] > MineId && after[x] == f[x] && f[x] != MineId) &&
    (forall x :: 0 <= x < Cells && x != index && after[x] != before[x] ==>
       exists p :: ZeroPath(after, p) && p[0] == index && p[|p| - 1] == x) &&
    (before[index] == f[index] ==> after == before)
  }

  /** The game state that the main loop keeps in the globals Field, Cover,
      Mines_Found, Game_Lost and Game_Won. */
  class Game {
    const Field: seq<int>
    const Cover: array<int>
    var MinesFound: int
    var GameLost: bool
    var GameWon: bool
    ghost var StaleFlags: set<int>

    ghost predicate Valid()
      reads this, Cover
    {
      Cover.Length == Cells && GameOk(Field, Cover[..], MinesFound, GameLost, StaleFlags)
    }

    /** A new game on a generated field: every cell covered, nothing found. */
    constructor (field: seq<int>)
      requires IsBoard(field)
      ensures Valid() && Field == field && fresh(Cover)
      ensures forall x :: 0 <= x < Cells ==> Cover[x] == CoverId
      ensures MinesFound == 0 && !GameLost && !GameWon && StaleFlags == {}
    {
      Field := field;
      Cover := new int[Cells](_ => CoverId);
      MinesFound, GameLost, GameWon := 0, false, false;
      StaleFlags := {};
      new;
      NoFlags(Cover[..], Field);
    }

    /** The left click: uncover the cell, flood-fill from it when it is
        empty, and lose on a mine. Flags do not protect a cell. */
    method LeftClick(index: int)
      requires Valid() && 0 <= index < Cells
      modifies Cover, this`GameLost, this`StaleFlags
      ensures Valid()
      ensures RevealEffect(old(Cover[..]), Cover[..], Field, index)
      ensures GameLost == (old(GameLost) || Field[index] == MineId)
    {
      ghost var before := Cover[..];
      if Cover[index] == FlagId && Field[index] == MineId {
        StaleFlags := StaleFlags + {index};
      }
      Cover[index] := Field[index];
      if Cover[index] == EmptyId {
        ghost var revealed := Cover[..];
        assert revealed == before[index := EmptyId];
        CoverSumBelowFirstChecksum(revealed, Field, index);
        var cleared := ClearTile(Cover, Field);
        RevealedEmpty(before, revealed, Cover[..], Field, MinesFound, GameLost, StaleFlags, index);
      }
      if Cover[index] == MineId {
        Cover[index] := ExplosionId;
        GameLost := true;
        assert Cover[..] == before[index := ExplosionId];
        RevealedMine(before, Field, MinesFound, old(GameLost), old(StaleFlags), index);
      } else if Field[index] != EmptyId {
        assert Cover[..] == before[index := Field[index]];
        RevealedNumber(before, Field, MinesFound, GameLost, StaleFlags, index);
      }
    }

    /** The right click: step the mark cycle and keep Mines_Found in step
        with the flags that lie on mines. */
    method RightClick(index: int)
      requires Valid() && 0 <= index < Cells
      modifies Cover, this`MinesFound
      ensures Valid()
      ensures Cover[index] == NextMark(old(Cover[index]))
      ensures forall x :: 0 <= x < Cells && x != index ==> Cover[x] == old(Cover[x])
      ensures MinesFound == old(MinesFound) + MarkDelta(old(Cover[index]), Field[index])
    {
      ghost var before := Cover[..];
      var tileReset := false;
      if Cover[index] == QuestionMarkId {
        Cover[index] := CoverId;
        tileReset := true;
      }
      if Cover[index] == FlagId {
        Cover[index] := QuestionMarkId;
        if Field[index] == MineId {
          MinesFound := MinesFound - 1;
        }
      }
      if Cover[index] == CoverId && !tileReset {
        Cover[index] := FlagId;
      }
      if Field[index] == MineId && Cover[index] == FlagId {
        MinesFound := MinesFound + 1;
      }
      assert Cover[..] == before[index := NextMark(before[index])];
      Remarked(before, Field, old(MinesFound), GameLost, StaleFlags, index);
    }

    /** The win test of the main loop: all mines found and no plain cover
        left. It does not look at Game_Lost, and it never clears Game_Won. */
    method CheckWin()
      requires Valid()
      modifies this`GameWon
      ensures Valid()
      ensures GameWon == (old(GameWon) || (MinesFound == NumMines && CoverId !in Cover[..]))
    {
      if MinesFound == NumMines && CoverId !in Cover[..] {
        GameWon := true;
      }
    }
  }

  /** The start of the program: create_field, then a cover over every cell.
      The draws stand in for the random generator; there is no game only
      when all the draws together mark fewer than ten mine cells. */
  method NewGame(draws: seq<int>) returns (game: Game?)
    requires forall k :: 0 <= k < |draws| ==> 0 <= draws[k] < Cells
    ensures game != null ==> fresh(game) && fresh(game.Cover) && game.Valid()
    ensures game != null ==> forall j :: 0 <= j < Cells ==> game.Cover[j] == CoverId
    ensures game != null ==>
      exists used :: 0 <= used <= |draws| && forall j :: 0 <= j < Cells ==> (game.Field[j] == MineId <==> j in draws[..used])
    ensures game != null ==> game.MinesFound == 0 && !game.GameLost && !game.GameWon
    ensures game == null ==>
      exists f: seq<int> :: (|f| == Cells && CountOf(f, MineId) < NumMines &&
        forall j :: 0 <= j < Cells ==> (f[j] == MineId <==> j in draws))
  {
    var field, used, placed := CreateField(draws);
    if placed {
      game := new Game(field);
    } else {
      assert draws[..used] == draws;
      game := null;
    }
  }

  /** The change a right click makes to Mines_Found: one more when a covered
      mine is flagged, one less when the flag on a mine turns into a
      question mark. */
  function MarkDelta(c: int, f: int): (d: int)
    ensures d == (if f == MineId && NextMark(c) == FlagId then 1 else 0)
      - (if f == MineId && c == FlagId then 1 else 0)
  {
    if f != MineId then 0
    else if c == CoverId then 1
    else if c == FlagId then -1
    else 0
  }

  /** Without flags no mine counts as found. */
  lemma {:induction false} NoFlags(c: seq<int>, f: seq<int>)
    requires |c| == |f|
    requires forall x :: 0 <= x < |c| ==> c[x] != FlagId
    ensures FlaggedMines(c, f) == 0
  {
    if c != [] {
      NoFlags(c[1..], f[1..]);
    }
  }

  /** A left click on a 0 cell followed by the flood fill keeps the game
      invariant. */
  lemma RevealedEmpty(before: seq<int>, revealed: seq<int>, after: seq<int>, f: seq<int>,
                      minesFound: int, lost: bool, stale: set<int>, index: int)
    requires GameOk(f, before, minesFound, lost, stale)
    requires 0 <= index < Cells && f[index] == EmptyId
    requires revealed == before[index := EmptyId]
    requires Uncovers(revealed, after, f) && Fixpoint(after, f)
    requires forall x :: 0 <= x < Cells && after[x] != revealed[x] ==>
      f[x] != MineId && exists p :: ZeroPath(after, p) && revealed[p[0]] == EmptyId && p[|p| - 1] == x
    requires Fixpoint(revealed, f) ==> after == revealed
    ensures GameOk(f, after, minesFound, lost, stale)
    ensures RevealEffect(before, after, f, index)
  {
    HintRange(f);
    forall x | 0 <= x < Cells && x != index && after[x] != before[x]
      ensures exists q :: ZeroPath(after, q) && q[0] == index && q[|q| - 1] == x
    {
      assert revealed[x] == before[x];
      var p :| ZeroPath(after, p) && revealed[p[0]] == EmptyId && p[|p| - 1] == x;
      var q := FromClick(before, revealed, after, f, index, p);
    }
    forall x | 0 <= x < Cells
      ensures CellOk(after[x], f[x])
      ensures after[x] == ExplosionId <==> before[x] == ExplosionId
      ensures f[x] == MineId ==> (after[x] == FlagId <==> before[x] == FlagId)
    {
      assert CellOk(before[x], f[x]);
      if x == index {
        assert after[x] == EmptyId;
      } else if after[x] != before[x] {
        assert revealed[x] == before[x];
        assert after[x] == f[x] && f[x] != MineId;
      }
    }
    FlaggedMinesFrame(before, after, f);
    SameExplosions(before, after);
  }

  /** Before the click nothing was left to uncover, so a chain of 0 cells
      that ends at a newly uncovered cell and starts at a 0 of the revealed
      cover passes through the clicked cell; its tail from there is a chain
      from the clicked cell. */
  lemma {:induction false} FromClick(before: seq<int>, revealed: seq<int>, after: seq<int>, f: seq<int>,
                                     index: int, p: seq<int>)
    returns (q: seq<int>)
    requires |f| == Cells && HintsCorrect(f) && 0 <= index < Cells
    requires Fixpoint(before, f) && revealed == before[index := EmptyId]
    requires Uncovers(revealed, after, f)
    requires ZeroPath(after, p) && revealed[p[0]] == EmptyId
    requires p[|p| - 1] != index && after[p[|p| - 1]] != before[p[|p| - 1]]
    ensures ZeroPath(after, q) && q[0] == index && q[|q| - 1] == p[|p| - 1]
    decreases |p|
  {
    if p[0] == index {
      q := p;
    } else {
      HintRange(f);
      assert Adjacent(p[0], p[1]);
      assert before[p[0]] == EmptyId;
      assert before[p[1]] == f[p[1]];
      if p[1] != index {
        assert after[p[1]] == before[p[1]];
      }
      ZeroPathTail(after, p);
      var tail := p[1..];
      if p[1] == index {
        q := tail;
      } else {
        assert after[p[1]] == before[p[1]];
        assert after[p[1]] == EmptyId;
        q := FromClick(before, revealed, after, f, index, tail);
      }
    }
  }

  /** A left click on a mine: the explosion shows, the game is lost, and a
      flag that lay on it leaves the counter as a stale flag. */
  lemma RevealedMine(before: seq<int>, f: seq<int>, minesFound: int, lost: bool, stale: set<int>, index: int)
    requires GameOk(f, before, minesFound, lost, stale)
    requires 0 <= index < Cells && f[index] == MineId
    ensures GameOk(f, before[index := ExplosionId], minesFound, true,
                   if before[index] == FlagId then stale + {index} else stale)
    ensures RevealEffect(before, before[index := ExplosionId], f, index)
  {
    assert CellOk(before[index], f[index]);
    RevealOne(before, f, index);
    var after := before[index := ExplosionId];
    assert after[index] == ExplosionId;
    FlaggedMinesUpdate(before, f, index, ExplosionId);
    if before[index] == FlagId {
      assert index !in stale;
    }
  }

  /** A left click on a cell with hint 1..8 keeps the game invariant. */
  lemma RevealedNumber(before: seq<int>, f: seq<int>, minesFound: int, lost: bool, stale: set<int>, index: int)
    requires GameOk(f, before, minesFound, lost, stale)
    requires 0 <= index < Cells && f[index] != MineId && f[index] != EmptyId
    ensures GameOk(f, before[index := f[index]], minesFound, lost, stale)
    ensures RevealEffect(before, before[index := f[index]], f, index)
  {
    RevealOne(before, f, index);
    var after := before[index := f[index]];
    FlaggedMinesUpdate(before, f, index, f[index]);
    HintRange(f);
    SameExplosions(before, after);
  }

  /** A left click on a cell other than a 0 changes that cell alone. */
  lemma RevealOne(before: seq<int>, f: seq<int>, index: int)
    requires |before| == |f| == Cells && 0 <= index < Cells && f[index] != EmptyId
    requires f[index] == MineId ==> before[index] != MineId
    ensures RevealEffect(before, before[index := if f[index] == MineId then ExplosionId else f[index]], f, index)
  {
  }

  /** A right click keeps the game invariant: it changes only a covered,
      flagged or question-marked cell, which is never next to a 0 cover,
      and adjusts the counter by MarkDelta. */
  lemma Remarked(before: seq<int>, f: seq<int>, minesFound: int, lost: bool, stale: set<int>, index: int)
    requires GameOk(f, before, minesFound, lost, stale)
    requires 0 <= index < Cells
    ensures GameOk(f, before[index := NextMark(before[index])],
                   minesFound + MarkDelta(before[index], f[index]), lost, stale)
  {
    var after := before[index := NextMark(before[index])];
    HintRange(f);
    FlaggedMinesUpdate(before, f, index, NextMark(before[index]));
    SameExplosions(before, after);
  }
}
