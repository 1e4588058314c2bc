/** Building the field: mine placement from a supplied sequence of random
    draws, then the hint pass that writes neighbour-mine counts. */
module Generate {
  import opened Board
  import opened Tally

  /** Number of mines among the cells m < bound that are adjacent to j. */
  ghost function AdjacentMinesBelow(s: seq<int>, j: int, bound: int): nat
    decreases bound
  {
    if bound <= 0 then 0
    else AdjacentMinesBelow(s, j, bound - 1)
         + (if bound - 1 < |s| && Adjacent(bound - 1, j) && s[bound - 1] == MineId then 1 else 0)
  }

  /** Number of mines among all neighbours of j. */
  ghost function AdjacentMines(s: seq<int>, j: int): nat {
    AdjacentMinesBelow(s, j, Cells)
  }

  ghost function MineAt(s: seq<int>, j: int, m: int, bound: int): nat {
    if 0 <= m < bound && m < |s| && Adjacent(m, j) && s[m] == MineId then 1 else 0
  }

  /** The same count taken over the first k of the eight neighbour offsets of j. */
  ghost function OffsetMinesUpTo(s: seq<int>, j: int, bound: int, k: int): (r: nat)
    requires 0 <= k <= |Offsets|
    ensures r <= k
  {
    if k == 0 then 0
    else OffsetMinesUpTo(s, j, bound, k - 1) + MineAt(s, j, j + Offsets[k - 1], bound)
  }

  ghost function OffsetMinesBelow(s: seq<int>, j: int, bound: int): nat {
    OffsetMinesUpTo(s, j, bound, |Offsets|)
  }

  /** Raising the bound by one adds the new cell m = bound - 1, if that is the one looked at. */
  lemma MineAtStep(s: seq<int>, j: int, m: int, bound: int)
    ensures MineAt(s, j, m, bound + 1) == MineAt(s, j, m, bound) + (if m == bound then MineAt(s, j, m, bound + 1) else 0)
  {
  }

  /** Raising the bound from b to b + 1 changes only the term of the offset
      that leads to b, which the first k offsets name at most once. */
  lemma {:induction false} OffsetMinesUpToStep(s: seq<int>, j: int, b: int, k: int)
    requires 0 <= k <= |Offsets|
    ensures OffsetMinesUpTo(s, j, b + 1, k)
         == OffsetMinesUpTo(s, j, b, k) + (if b - j in Offsets[..k] then MineAt(s, j, b, b + 1) else 0)
  {
    if k > 0 {
      OffsetMinesUpToStep(s, j, b, k - 1);
      MineAtStep(s, j, j + Offsets[k - 1], b);
      assert Offsets[..k] == Offsets[..k - 1] + [Offsets[k - 1]];
      OffsetsDistinct(k - 1);
    }
  }

  lemma {:induction false} AdjacentMinesViaOffsets(s: seq<int>, j: int, bound: int)
    requires 0 <= j < Cells
    ensures AdjacentMinesBelow(s, j, bound) == OffsetMinesBelow(s, j, bound)
    decreases bound
  {
    if bound > 0 {
      var b := bound - 1;
      AdjacentMinesViaOffsets(s, j, b);
      assert AdjacentMinesBelow(s, j, bound) == AdjacentMinesBelow(s, j, b) + MineAt(s, j, b, bound);
      NewMineIsOffset(s, j, b);
      assert Offsets[..|Offsets|] == Offsets;
      OffsetMinesUpToStep(s, j, b, |Offsets|);
    } else {
      OffsetMinesEmpty(s, j, bound, |Offsets|);
    }
  }

  /** With no cell below the bound, no offset term counts. */
  lemma {:induction false} OffsetMinesEmpty(s: seq<int>, j: int, bound: int, k: int)
    requires bound <= 0 && 0 <= k <= |Offsets|
    ensures OffsetMinesUpTo(s, j, bound, k) == 0
  {
    if k > 0 {
      OffsetMinesEmpty(s, j, bound, k - 1);
    }
  }

  lemma NewMineIsOffset(s: seq<int>, j: int, b: int)
    requires 0 <= j < Cells
    ensures MineAt(s, j, b, b + 1) == 1 ==> b - j in Offsets
  {
    if MineAt(s, j, b, b + 1) == 1 {
      AdjacentSymmetric(b, j);
      NeighbourOffsets(j, b);
    }
  }

  /** A cell has at most eight neighbouring mines. */
  lemma AdjacentMinesAtMost8(s: seq<int>, j: int, bound: int)
    requires 0 <= j < Cells
    ensures AdjacentMinesBelow(s, j, bound) <= 8
  {
    AdjacentMinesViaOffsets(s, j, bound);
  }

  /** The count only looks at where the mines are. */
  lemma {:induction false} AdjacentMinesSameMines(s: seq<int>, t: seq<int>, j: int, bound: int)
    requires |s| == |t|
    requires forall m :: 0 <= m < |s| ==> (s[m] == MineId <==> t[m] == MineId)
    ensures AdjacentMinesBelow(s, j, bound) == AdjacentMinesBelow(t, j, bound)
    decreases bound
  {
    if bound > 0 {
      AdjacentMinesSameMines(s, t, j, bound - 1);
      var m := bound - 1;
      assert (m < |s| && s[m] == MineId) == (m < |t| && t[m] == MineId);
    }
  }

  /** A cell whose count is 0 has no mine among its neighbours. */
  lemma {:induction false} NoMineNextToZero(s: seq<int>, j: int, m: int, bound: int)
    requires AdjacentMinesBelow(s, j, bound) == 0
    requires 0 <= m < bound && m < |s| && Adjacent(m, j)
    ensures s[m] != MineId
    decreases bound
  {
    if m < bound - 1 {
      NoMineNextToZero(s, j, m, bound - 1);
    }
  }

  /** Every non-mine cell holds the number of mines around it. */
  ghost predicate HintsCorrect(f: seq<int>) {
    forall j :: 0 <= j < |f| && f[j] != MineId ==> f[j] == AdjacentMines(f, j)
  }

  /** A finished field: the right size, exactly NumMines mines, correct hints. */
  ghost predicate IsBoard(f: seq<int>) {
    |f| == Cells && CountOf(f, MineId) == NumMines && HintsCorrect(f)
  }

  /** Every cell of a correct field holds a hint 0..8 or a mine. */
  lemma HintRange(f: seq<int>)
    requires |f| == Cells && HintsCorrect(f)
    ensures forall j :: 0 <= j < Cells ==> 0 <= f[j] <= MineId
  {
    forall j | 0 <= j < Cells
      ensures 0 <= f[j] <= MineId
    {
      AdjacentMinesAtMost8(f, j, Cells);
    }
  }

  /** A neighbour of a 0 cell of a correct field is not a mine. */
  lemma ZeroHasNoMineNeighbour(f: seq<int>, w: int, x: int)
    requires |f| == Cells && HintsCorrect(f)
    requires 0 <= w < Cells && f[w] == EmptyId && Adjacent(w, x)
    ensures f[x] != MineId
  {
    AdjacentSymmetric(w, x);
    NoMineNextToZero(f, w, x, Cells);
  }

  /** The placement loop: put a mine on each drawn cell until the field sums
      to NumMines * MineId, or until the draws run out. */
  method PlaceMines(field: array<int>, draws: seq<int>) returns (used: nat, placed: bool)
    requires field.Length == Cells
    requires forall j :: 0 <= j < Cells ==> field[j] == EmptyId
    requires forall k :: 0 <= k < |draws| ==> 0 <= draws[k] < Cells
    modifies field
    ensures used <= |draws|
    ensures forall j :: 0 <= j < Cells ==> field[j] == EmptyId || field[j] == MineId
    ensures forall j :: 0 <= j < Cells ==> (field[j] == MineId <==> j in draws[..used])
    ensures placed <==> CountOf(field[..], MineId) == NumMines
    ensures !placed ==> used == |draws| && CountOf(field[..], MineId) < NumMines
  {
    used := 0;
    AllEmpty(field[..]);
    while Sum(field[..]) < NumMines * MineId && used < |draws|
      invariant used <= |draws|
      invariant forall j :: 0 <= j < Cells ==> field[j] == EmptyId || field[j] == MineId
      invariant forall j :: 0 <= j < Cells ==> (field[j] == MineId <==> j in draws[..used])
      invariant Sum(field[..]) == MineId * CountOf(field[..], MineId)
      invariant CountOf(field[..], MineId) <= NumMines
    {
      ghost var before := field[..];
      SumUpdate(before, draws[used], MineId);
      CountUpdate(before, draws[used], MineId, MineId);
      field[draws[used]] := MineId;
      assert field[..] == before[draws[used] := MineId];
      assert draws[..used + 1] == draws[..used] + [draws[used]];
      used := used + 1;
    }
    placed := Sum(field[..]) >= NumMines * MineId;
  }

  /** The hint pass: every mine adds 1 to each adjacent cell that is not a mine. */
  method PlaceHints(field: array<int>)
    requires field.Length == Cells
    requires forall j :: 0 <= j < Cells ==> field[j] == EmptyId || field[j] == MineId
    modifies field
    ensures forall j :: 0 <= j < Cells ==> (field[j] == MineId <==> old(field[j]) == MineId)
    ensures forall j :: 0 <= j < Cells && field[j] != MineId ==> field[j] == AdjacentMines(old(field[..]), j)
    ensures HintsCorrect(field[..])
  {
    ghost var s := field[..];
    for m := 0 to field.Length
      invariant forall j :: 0 <= j < Cells ==> (field[j] == MineId <==> s[j] == MineId)
      invariant forall j :: 0 <= j < Cells && s[j] != MineId ==> field[j] == AdjacentMinesBelow(s, j, m)
    {
      HintsAround(field, m, s);
    }
    forall j | 0 <= j < Cells
      ensures AdjacentMines(s, j) == AdjacentMines(field[..], j)
    {
      AdjacentMinesSameMines(s, field[..], j, Cells);
    }
  }

  /** Cell j is one of the first k neighbours of m that the offset list admits. */
  ghost predicate Reached(m: int, j: int, k: int)
    requires 0 <= k <= |Offsets|
  {
    0 <= j < Cells && j - m in Offsets[..k] && NextToField(m, j)
  }

  lemma ReachedStep(m: int, j: int, k: int)
    requires 0 <= k < |Offsets|
    ensures Reached(m, j, k + 1) <==> Reached(m, j, k) || (j == m + Offsets[k] && 0 <= j < Cells && NextToField(m, j))
    ensures j == m + Offsets[k] ==> !Reached(m, j, k)
  {
    OffsetsDistinct(k);
    assert Offsets[..k + 1] == Offsets[..k] + [Offsets[k]];
  }

  lemma ReachedAll(m: int, j: int)
    requires 0 <= m < Cells
    ensures Reached(m, j, |Offsets|) <==> Adjacent(m, j)
  {
    assert Offsets[..|Offsets|] == Offsets;
    NeighbourOffsets(m, j);
  }

  /** One round of the outer loop of the hint pass: if m holds a mine, add 1
      to each of its neighbours that is not a mine. */
  method HintsAround(field: array<int>, m: int, ghost s: seq<int>)
    requires field.Length == Cells == |s| && 0 <= m < Cells
    requires forall j :: 0 <= j < Cells ==> (field[j] == MineId <==> s[j] == MineId)
    requires forall j :: 0 <= j < Cells && s[j] != MineId ==> field[j] == AdjacentMinesBelow(s, j, m)
    modifies field
    ensures forall j :: 0 <= j < Cells ==> (field[j] == MineId <==> s[j] == MineId)
    ensures forall j :: 0 <= j < Cells && s[j] != MineId ==> field[j] == AdjacentMinesBelow(s, j, m + 1)
  {
    ghost var start := field[..];
    for k := 0 to |Offsets|
      invariant forall j :: 0 <= j < Cells ==> (field[j] == MineId <==> s[j] == MineId)
      invariant forall j :: 0 <= j < Cells ==>
        field[j] == start[j] + (if s[m] == MineId && s[j] != MineId && Reached(m, j, k) then 1 else 0)
    {
      HintStep(field, m, k, s, start);
    }
    forall j | 0 <= j < Cells
      ensures Reached(m, j, |Offsets|) <==> Adjacent(m, j)
    {
      ReachedAll(m, j);
    }
  }

  /** The innermost step of the hint pass: offset number k of cell m. */
  method HintStep(field: array<int>, m: int, k: int, ghost s: seq<int>, ghost start: seq<int>)
    requires field.Length == Cells == |s| == |start| && 0 <= m < Cells && 0 <= k < |Offsets|
    requires forall j :: 0 <= j < Cells && s[j] != MineId ==> start[j] == AdjacentMinesBelow(s, j, m)
    requires forall j :: 0 <= j < Cells ==> (field[j] == MineId <==> s[j] == MineId)
    requires forall j :: 0 <= j < Cells ==>
      field[j] == start[j] + (if s[m] == MineId && s[j] != MineId && Reached(m, j, k) then 1 else 0)
    modifies field
    ensures forall j :: 0 <= j < Cells ==> (field[j] == MineId <==> s[j] == MineId)
    ensures forall j :: 0 <= j < Cells ==>
      field[j] == start[j] + (if s[m] == MineId && s[j] != MineId && Reached(m, j, k + 1) then 1 else 0)
  {
    var n := Offsets[k];
    ghost var before := field[..];
    if field[m] == MineId {
      if 0 <= m + n < field.Length {
        if NextToField(m, m + n) {
          if field[m + n] != MineId {
            ghost var before := field[..];
            field[m + n] := field[m + n] + 1;
            assert field[..] == before[m + n := before[m + n] + 1];
            HintBumped(before, field[..], s, start, m, k);
          }
        }
      }
    }
    if field[..] == before {
      HintSkipped(before, s, start, m, k);
    }
  }

  /** When offset k of m does not lead to a non-mine neighbour of a mine,
      no count changes. */
  lemma HintSkipped(before: seq<int>, s: seq<int>, start: seq<int>, m: int, k: int)
    requires |before| == |s| == |start| == Cells && 0 <= m < Cells && 0 <= k < |Offsets|
    requires forall j :: 0 <= j < Cells ==> (before[j] == MineId <==> s[j] == MineId)
    requires forall j :: 0 <= j < Cells ==>
      before[j] == start[j] + (if s[m] == MineId && s[j] != MineId && Reached(m, j, k) then 1 else 0)
    requires !(before[m] == MineId && 0 <= m + Offsets[k] < Cells && NextToField(m, m + Offsets[k])
               && before[m + Offsets[k]] != MineId)
    ensures forall j :: 0 <= j < Cells ==>
      before[j] == start[j] + (if s[m] == MineId && s[j] != MineId && Reached(m, j, k + 1) then 1 else 0)
  {
    forall j | 0 <= j < Cells
      ensures Reached(m, j, k + 1) <==> Reached(m, j, k) || (j == m + Offsets[k] && NextToField(m, j))
    {
      ReachedStep(m, j, k);
    }
  }

  /** The increment of HintStep keeps the hint below MineId and counts the
      mine m for its neighbour. */
  lemma HintBumped(before: seq<int>, after: seq<int>, s: seq<int>, start: seq<int>, m: int, k: int)
    requires |before| == |s| == |start| == Cells && 0 <= m < Cells && 0 <= k < |Offsets|
    requires forall j :: 0 <= j < Cells && s[j] != MineId ==> start[j] == AdjacentMinesBelow(s, j, m)
    requires forall j :: 0 <= j < Cells ==> (before[j] == MineId <==> s[j] == MineId)
    requires forall j :: 0 <= j < Cells ==>
      before[j] == start[j] + (if s[m] == MineId && s[j] != MineId && Reached(m, j, k) then 1 else 0)
    requires 0 <= m + Offsets[k] < Cells && NextToField(m, m + Offsets[k])
    requires before[m] == MineId && before[m + Offsets[k]] != MineId
    requires after == before[m + Offsets[k] := before[m + Offsets[k]] + 1]
    ensures forall j :: 0 <= j < Cells ==> (after[j] == MineId <==> s[j] == MineId)
    ensures forall j :: 0 <= j < Cells ==>
      after[j] == start[j] + (if s[m] == MineId && s[j] != MineId && Reached(m, j, k + 1) then 1 else 0)
  {
    var t := m + Offsets[k];
    forall j | 0 <= j < Cells
      ensures Reached(m, j, k + 1) <==> Reached(m, j, k) || (j == t && NextToField(m, j))
      ensures j == t ==> !Reached(m, j, k)
    {
      ReachedStep(m, j, k);
    }
    assert AdjacentMinesBelow(s, t, m + 1) == after[t] <= 8 by {
      ReachedAll(m, t);
      AdjacentMinesAtMost8(s, t, m + 1);
    }
  }

  /** Builds a field from the given draws of rnd.randrange(Cells). */
  method CreateField(draws: seq<int>) returns (field: seq<int>, used: nat, placed: bool)
    requires forall k :: 0 <= k < |draws| ==> 0 <= draws[k] < Cells
    ensures |field| == Cells && used <= |draws|
    ensures forall j :: 0 <= j < Cells ==> (field[j] == MineId <==> j in draws[..used])
    ensures HintsCorrect(field)
    ensures placed <==> IsBoard(field)
    ensures !placed ==> used == |draws| && CountOf(field, MineId) < NumMines
  {
    var a := new int[Cells](_ => EmptyId);
    used, placed := PlaceMines(a, draws);
    ghost var mines := a[..];
    PlaceHints(a);
    field := a[..];
    assert forall j :: 0 <= j < Cells ==> (field[j] == MineId <==> mines[j] == MineId);
    CountMatch(mines, MineId, field, MineId);
  }

  lemma {:induction false} AllEmpty(s: seq<int>)
    requires forall j :: 0 <= j < |s| ==> s[j] == EmptyId
    ensures Sum(s) == 0 && CountOf(s, MineId) == 0
  {
    if s != [] {
      AllEmpty(s[1..]);
    }
  }
}
