/** The flood-fill reveal: clear_tile sweeps the cover list forwards and then
    backwards, giving every neighbour of a cell whose cover shows 0 its field
    value, and repeats while the sum of the cover list keeps dropping. */
module FloodFill {
  import opened Board
  import opened Tally
  import opened Generate

  /** Every cover cell shows its field value or is still covered, flagged,
      question-marked or exploded (a value above MineId). */
  ghost predicate CoverOk(c: seq<int>, f: seq<int>) {
    |c| == Cells && |f| == Cells && forall x :: 0 <= x < Cells ==> c[x] == f[x] || c[x] > MineId
  }

  /** From o to c, the only changes replace a value above MineId by the field value. */
  ghost predicate Uncovers(o: seq<int>, c: seq<int>, f: seq<int>) {
    |o| == Cells && |c| == Cells && |f| == Cells &&
    forall x :: 0 <= x < Cells ==> c[x] == o[x] || (c[x] == f[x] && o[x] > MineId)
  }

  /** cl lists, once each, exactly the cells uncovered between o and c. */
  ghost predicate ClearedExactly(cl: seq<int>, o: seq<int>, c: seq<int>) {
    |o| == Cells && |c| == Cells &&
    (forall p, q :: 0 <= p < q < |cl| ==> cl[p] != cl[q]) &&
    (forall x :: x in cl <==> 0 <= x < Cells && o[x] > MineId && c[x] <= MineId)
  }

  /** Why a cell changed: it was uncovered from its neighbour `from`, whose
      cover showed 0, at distance `depth` from a cell that showed 0 before
      the fill began. */
  datatype Support = Support(from: int, depth: nat)

  /** Changed cell x was uncovered from a neighbour whose cover shows 0 and
      that either showed 0 in o or was itself uncovered at a smaller depth. */
  ghost predicate Supported(o: seq<int>, c: seq<int>, wit: seq<Support>, x: int)
    requires |o| == |c| == |wit| == Cells && 0 <= x < Cells
  {
    var w := wit[x].from;
    Adjacent(w, x) && c[w] == EmptyId &&
    (o[w] == EmptyId || (c[w] != o[w] && wit[w].depth < wit[x].depth))
  }

  /** Every cell changed between o and c is supported. */
  ghost predicate Witnessed(o: seq<int>, c: seq<int>, wit: seq<Support>) {
    |o| == Cells && |c| == Cells && |wit| == Cells &&
    forall x :: 0 <= x < Cells && c[x] != o[x] ==> Supported(o, c, wit, x)
  }

  ghost predicate Progress(o: seq<int>, c: seq<int>, f: seq<int>, cl: seq<int>, wit: seq<Support>) {
    CoverOk(c, f) && Uncovers(o, c, f) && ClearedExactly(cl, o, c) && Witnessed(o, c, wit)
  }

  /** Nothing is left to uncover: every neighbour of a cell whose cover is 0
      shows its field value. */
  ghost predicate Fixpoint(c: seq<int>, f: seq<int>) {
    |c| == Cells && |f| == Cells &&
    forall i, j :: 0 <= i < Cells && c[i] == EmptyId && Adjacent(i, j) ==> c[j] == f[j]
  }

  /** p is a chain of neighbouring cells in which every cell but the last
      shows 0 in c. */
  ghost predicate ZeroPath(c: seq<int>, p: seq<int>)
    requires |c| == Cells
  {
    |p| >= 2 && 0 <= p[0] < Cells && 0 <= p[|p| - 1] < Cells &&
    forall n :: 0 <= n < |p| - 1 ==> Adjacent(p[n], p[n + 1]) && c[p[n]] == EmptyId
  }

  /** Dropping the first cell of a chain longer than two leaves a chain. */
  lemma ZeroPathTail(c: seq<int>, p: seq<int>)
    requires |c| == Cells && ZeroPath(c, p) && p[1] != p[|p| - 1]
    ensures ZeroPath(c, p[1..])
  {
    var t := p[1..];
    forall n | 0 <= n < |t| - 1
      ensures Adjacent(t[n], t[n + 1]) && c[t[n]] == EmptyId
    {
      assert t[n] == p[n + 1] && t[n + 1] == p[n + 2];
    }
  }

  /** Following the supports back from a changed cell gives a chain of 0
      cells from a cell that showed 0 in o. */
  lemma {:induction false} SupportChain(o: seq<int>, c: seq<int>, wit: seq<Support>, x: int)
    returns (p: seq<int>)
    requires Witnessed(o, c, wit) && 0 <= x < Cells && c[x] != o[x]
    ensures ZeroPath(c, p) && o[p[0]] == EmptyId && p[|p| - 1] == x
    decreases wit[x].depth
  {
    assert Supported(o, c, wit, x);
    var w := wit[x].from;
    if o[w] == EmptyId {
      p := [w, x];
    } else {
      var q := SupportChain(o, c, wit, w);
      p := q + [x];
      forall n | 0 <= n < |p| - 1
        ensures Adjacent(p[n], p[n + 1]) && c[p[n]] == EmptyId
      {
        if n < |q| - 1 {
          assert p[n] == q[n] && p[n + 1] == q[n + 1];
        } else {
          assert p[n] == w && p[n + 1] == x;
        }
      }
    }
  }

  /** Offset number k of cell i: if the cover of i shows 0 and i + Offsets[k]
      is a neighbour on the board, record it when it was covered and give it
      its field value. */
  method VisitStep(cover: array<int>, field: seq<int>, i: int, k: int, cleared: seq<int>,
                   ghost wit: seq<Support>, ghost orig: seq<int>, ghost start: seq<int>)
    returns (cleared': seq<int>, ghost wit': seq<Support>)
    requires cover.Length == Cells && |field| == Cells && HintsCorrect(field)
    requires 0 <= i < Cells && 0 <= k < |Offsets|
    requires Progress(orig, cover[..], field, cleared, wit)
    requires Uncovers(start, cover[..], field)
    requires Fixpoint(start, field) ==> cover[..] == start
    modifies cover
    ensures Progress(orig, cover[..], field, cleared', wit')
    ensures Uncovers(start, cover[..], field)
    ensures Fixpoint(start, field) ==> cover[..] == start
    ensures cover[..] == if Uncovering(old(cover[..]), i, k)
      then old(cover[..])[i + Offsets[k] := field[i + Offsets[k]]] else old(cover[..])
    ensures cleared' == if Uncovering(old(cover[..]), i, k) && i + Offsets[k] !in cleared && old(cover[i + Offsets[k]]) > MineId
      then cleared + [i + Offsets[k]] else cleared
  {
    var n := Offsets[k];
    cleared', wit' := cleared, wit;
    ghost var before := cover[..];
    if cover[i] == EmptyId {
      if 0 <= i + n < cover.Length {
        if NextToField(i, i + n) {
          if i + n !in cleared' && cover[i + n] > MineId {
            cleared' := cleared' + [i + n];
          }
          if cover[i + n] != field[i + n] {
            wit' := wit'[i + n := Support(i, wit'[i].depth + 1)];
          }
          cover[i + n] := field[i + n];
          assert cover[..] == before[i + n := field[i + n]];
          UncoverOne(before, cover[..], field, i, k, cleared, cleared', wit, wit', orig, start);
        }
      }
    }
  }

  /** Offset k of cell i takes effect: i shows 0 and i + Offsets[k] is a
      neighbour on the board. */
  ghost predicate Uncovering(c: seq<int>, i: int, k: int)
    requires |c| == Cells && 0 <= i < Cells && 0 <= k < |Offsets|
  {
    c[i] == EmptyId && 0 <= i + Offsets[k] < Cells && NextToField(i, i + Offsets[k])
  }

  /** Giving neighbour i + Offsets[k] of a 0 cell i its field value, and
      recording it when it was covered, keeps the progress of the fill. */
  lemma UncoverOne(before: seq<int>, after: seq<int>, f: seq<int>, i: int, k: int,
                   cl: seq<int>, cl': seq<int>, wit: seq<Support>, wit': seq<Support>, orig: seq<int>, start: seq<int>)
    requires |f| == Cells && HintsCorrect(f) && 0 <= i < Cells && 0 <= k < |Offsets|
    requires Progress(orig, before, f, cl, wit)
    requires Uncovers(start, before, f)
    requires Fixpoint(start, f) ==> before == start
    requires 0 <= i + Offsets[k] < Cells && NextToField(i, i + Offsets[k]) && before[i] == EmptyId
    requires after == before[i + Offsets[k] := f[i + Offsets[k]]]
    requires cl' == if i + Offsets[k] !in cl && before[i + Offsets[k]] > MineId then cl + [i + Offsets[k]] else cl
    requires wit' == if before[i + Offsets[k]] != f[i + Offsets[k]]
      then wit[i + Offsets[k] := Support(i, wit[i].depth + 1)] else wit
    ensures Progress(orig, after, f, cl', wit')
    ensures Uncovers(start, after, f)
    ensures Fixpoint(start, f) ==> after == start
  {
    var j := i + Offsets[k];
    assert Adjacent(i, j) by {
      OffsetsDistinct(k);
      NeighbourOffsets(i, j);
    }
    HintRange(f);
    assert before[j] > MineId || before[j] == f[j];
    UncoverKeepsCover(before, after, f, j);
    UncoverKeepsUncovers(orig, before, after, f, j);
    UncoverKeepsUncovers(start, before, after, f, j);
    UncoverKeepsCleared(orig, before, after, f, j, cl, cl');
    UncoverKeepsWitnesses(orig, before, after, f, i, j, wit, wit');
    if Fixpoint(start, f) {
      assert before[i] == start[i];
    }
  }

  lemma UncoverKeepsCover(before: seq<int>, after: seq<int>, f: seq<int>, j: int)
    requires CoverOk(before, f) && 0 <= j < Cells && after == before[j := f[j]]
    ensures CoverOk(after, f)
  {
  }

  lemma UncoverKeepsUncovers(o: seq<int>, before: seq<int>, after: seq<int>, f: seq<int>, j: int)
    requires Uncovers(o, before, f) && 0 <= j < Cells && after == before[j := f[j]]
    requires before[j] > MineId || before[j] == f[j]
    ensures Uncovers(o, after, f)
  {
  }

  lemma UncoverKeepsCleared(o: seq<int>, before: seq<int>, after: seq<int>, f: seq<int>, j: int,
                            cl: seq<int>, cl': seq<int>)
    requires ClearedExactly(cl, o, before) && Uncovers(o, before, f)
    requires 0 <= j < Cells && after == before[j := f[j]] && f[j] <= MineId
    requires cl' == if j !in cl && before[j] > MineId then cl + [j] else cl
    ensures ClearedExactly(cl', o, after)
  {
  }

  /** A newly uncovered cell j is supported by the 0 cell i one deeper than
      i; no supported cell leans on j, which was still covered. */
  lemma UncoverKeepsWitnesses(o: seq<int>, before: seq<int>, after: seq<int>, f: seq<int>, i: int, j: int,
                              wit: seq<Support>, wit': seq<Support>)
    requires Witnessed(o, before, wit) && CoverOk(before, f) && Uncovers(o, before, f)
    requires Adjacent(i, j) && before[i] == EmptyId && after == before[j := f[j]]
    requires wit' == if before[j] != f[j] then wit[j := Support(i, wit[i].depth + 1)] else wit
    ensures Witnessed(o, after, wit')
  {
    if before[j] == f[j] {
      assert after == before;
    } else {
      forall x | 0 <= x < Cells && after[x] != o[x]
        ensures Supported(o, after, wit', x)
      {
        if x != j {
          assert Supported(o, before, wit, x);
          assert before[wit[x].from] == EmptyId;
        }
      }
    }
  }

  /** The cover after the first k offsets of cell i: the neighbours reached
      so far show their field values if i showed 0, and nothing else changed. */
  ghost predicate VisitedUpTo(before: seq<int>, c: seq<int>, f: seq<int>, i: int, k: int)
    requires |before| == |c| == |f| == Cells && 0 <= i < Cells && 0 <= k <= |Offsets|
  {
    forall x :: 0 <= x < Cells ==> c[x] == if before[i] == EmptyId && Reached(i, x, k) then f[x] else before[x]
  }

  lemma VisitedStep(before: seq<int>, mid: seq<int>, after: seq<int>, f: seq<int>, i: int, k: int)
    requires |before| == |mid| == |f| == Cells && 0 <= i < Cells && 0 <= k < |Offsets|
    requires VisitedUpTo(before, mid, f, i, k)
    requires after == if Uncovering(mid, i, k) then mid[i + Offsets[k] := f[i + Offsets[k]]] else mid
    ensures VisitedUpTo(before, after, f, i, k + 1)
  {
    assert !Reached(i, i, k) by {
      assert 0 !in Offsets;
    }
    assert mid[i] == before[i];
    forall x | 0 <= x < Cells
      ensures after[x] == if before[i] == EmptyId && Reached(i, x, k + 1) then f[x] else before[x]
    {
      ReachedStep(i, x, k);
    }
  }

  lemma VisitedAll(before: seq<int>, c: seq<int>, f: seq<int>, i: int)
    requires |before| == |c| == |f| == Cells && 0 <= i < Cells
    requires VisitedUpTo(before, c, f, i, |Offsets|)
    ensures forall x :: 0 <= x < Cells ==> c[x] == if before[i] == EmptyId && Adjacent(i, x) then f[x] else before[x]
  {
    forall x | 0 <= x < Cells
      ensures Reached(i, x, |Offsets|) <==> Adjacent(i, x)
    {
      ReachedAll(i, x);
    }
  }

  /** The inner loop of a sweep for cell i: its eight offsets in order. When
      i shows 0, every neighbour gets its field value; nothing else changes. */
  method Visit(cover: array<int>, field: seq<int>, i: int, cleared: seq<int>,
               ghost wit: seq<Support>, ghost orig: seq<int>, ghost start: seq<int>)
    returns (cleared': seq<int>, ghost wit': seq<Support>)
    requires cover.Length == Cells && |field| == Cells && HintsCorrect(field)
    requires 0 <= i < Cells
    requires Progress(orig, cover[..], field, cleared, wit)
    requires Uncovers(start, cover[..], field)
    requires Fixpoint(start, field) ==> cover[..] == start
    modifies cover
    ensures Progress(orig, cover[..], field, cleared', wit')
    ensures Uncovers(start, cover[..], field)
    ensures Fixpoint(start, field) ==> cover[..] == start
    ensures forall x :: 0 <= x < Cells ==>
      cover[x] == if old(cover[i]) == EmptyId && Adjacent(i, x) then field[x] else old(cover[x])
  {
    ghost var entry := cover[..];
    cleared', wit' := cleared, wit;
    for k := 0 to |Offsets|
      invariant Progress(orig, cover[..], field, cleared', wit')
      invariant Uncovers(start, cover[..], field)
      invariant Fixpoint(start, field) ==> cover[..] == start
      invariant VisitedUpTo(entry, cover[..], field, i, k)
    {
      ghost var mid := cover[..];
      cleared', wit' := VisitStep(cover, field, i, k, cleared', wit', orig, start);
      VisitedStep(entry, mid, cover[..], field, i, k);
    }
    VisitedAll(entry, cover[..], field, i);
  }

  /** The forward sweep over all cells. Afterwards every neighbour of a cell
      whose cover showed 0 when the sweep began shows its field value. */
  method ForwardSweep(cover: array<int>, field: seq<int>, cleared: seq<int>,
                      ghost wit: seq<Support>, ghost orig: seq<int>)
    returns (cleared': seq<int>, ghost wit': seq<Support>)
    requires cover.Length == Cells && |field| == Cells && HintsCorrect(field)
    requires Progress(orig, cover[..], field, cleared, wit)
    modifies cover
    ensures Progress(orig, cover[..], field, cleared', wit')
    ensures Uncovers(old(cover[..]), cover[..], field)
    ensures ClearedIn(old(cover[..]), cover[..], field, 0, Cells)
    ensures Fixpoint(old(cover[..]), field) ==> cover[..] == old(cover[..])
  {
    ghost var start := cover[..];
    cleared', wit' := cleared, wit;
    for i := 0 to cover.Length
      invariant Progress(orig, cover[..], field, cleared', wit')
      invariant Uncovers(start, cover[..], field)
      invariant Fixpoint(start, field) ==> cover[..] == start
      invariant ClearedIn(start, cover[..], field, 0, i)
    {
      ghost var before := cover[..];
      cleared', wit' := Visit(cover, field, i, cleared', wit', orig, start);
      ClearedStep(start, before, cover[..], field, i, 0, i, 0, i + 1);
    }
  }

  /** Every neighbour of a cell in lo..hi-1 whose cover showed 0 at the start
      of the sweep shows its field value. */
  ghost predicate ClearedIn(start: seq<int>, c: seq<int>, f: seq<int>, lo: int, hi: int)
    requires |start| == |c| == |f| == Cells
  {
    forall i, j :: lo <= i < hi && 0 <= i < Cells && start[i] == EmptyId && Adjacent(i, j) ==> c[j] == f[j]
  }

  /** Visiting cell i, just above or just below the range lo..hi-1, extends
      ClearedIn to it. */
  lemma ClearedStep(start: seq<int>, before: seq<int>, after: seq<int>, f: seq<int>, i: int,
                    lo: int, hi: int, lo': int, hi': int)
    requires |f| == Cells && HintsCorrect(f) && 0 <= i < Cells
    requires (i == hi && lo' == lo && hi' == hi + 1) || (i + 1 == lo && lo' == i && hi' == hi)
    requires Uncovers(start, before, f) && |after| == Cells
    requires ClearedIn(start, before, f, lo, hi)
    requires forall x :: 0 <= x < Cells ==>
      after[x] == if before[i] == EmptyId && Adjacent(i, x) then f[x] else before[x]
    ensures ClearedIn(start, after, f, lo', hi')
  {
    HintRange(f);
  }

  /** The backward sweep over all cells. Afterwards every neighbour of a cell
      whose cover showed 0 when the sweep began shows its field value. */
  method ReverseSweep(cover: array<int>, field: seq<int>, cleared: seq<int>,
                      ghost wit: seq<Support>, ghost orig: seq<int>)
    returns (cleared': seq<int>, ghost wit': seq<Support>)
    requires cover.Length == Cells && |field| == Cells && HintsCorrect(field)
    requires Progress(orig, cover[..], field, cleared, wit)
    modifies cover
    ensures Progress(orig, cover[..], field, cleared', wit')
    ensures Uncovers(old(cover[..]), cover[..], field)
    ensures ClearedIn(old(cover[..]), cover[..], field, 0, Cells)
    ensures Fixpoint(old(cover[..]), field) ==> cover[..] == old(cover[..])
  {
    ghost var start := cover[..];
    cleared', wit' := cleared, wit;
    for i := cover.Length downto 0
      invariant Progress(orig, cover[..], field, cleared', wit')
      invariant Uncovers(start, cover[..], field)
      invariant Fixpoint(start, field) ==> cover[..] == start
      invariant ClearedIn(start, cover[..], field, i, Cells)
    {
      ghost var before := cover[..];
      cleared', wit' := Visit(cover, field, i, cleared', wit', orig, start);
      ClearedStep(start, before, cover[..], field, i, i + 1, Cells, i, Cells);
    }
  }

  /** clear_tile: repeat the two sweeps while the checksum (the sum of the
      cover list) drops below the previous one. The first checksum is
      Columns * Rows * QuestionMarkId, which the source takes as the highest
      possible sum; it is not one (exploded mines show 13), but a cover in
      which a cell was just revealed as 0 sums to less
      (Play.CoverSumBelowFirstChecksum). Returns the cells uncovered on the
      way: each is a non-mine reached from a cell that showed 0 before the
      fill, through cells that show 0 afterwards. */
  method ClearTile(cover: array<int>, field: seq<int>) returns (cleared: seq<int>)
    requires cover.Length == Cells && |field| == Cells && HintsCorrect(field)
    requires CoverOk(cover[..], field)
    modifies cover
    ensures CoverOk(cover[..], field)
    ensures Uncovers(old(cover[..]), cover[..], field)
    ensures forall x :: 0 <= x < Cells && cover[x] != old(cover[x]) ==>
      field[x] != MineId && exists p :: ZeroPath(cover[..], p) && old(cover[..])[p[0]] == EmptyId && p[|p| - 1] == x
    ensures ClearedExactly(cleared, old(cover[..]), cover[..])
    ensures Sum(old(cover[..])) < Cells * QuestionMarkId ==> Fixpoint(cover[..], field)
    ensures Sum(old(cover[..])) >= Cells * QuestionMarkId ==> cover[..] == old(cover[..]) && cleared == []
    ensures Fixpoint(old(cover[..]), field) ==> cover[..] == old(cover[..]) && cleared == []
  {
    ghost var orig := cover[..];
    ghost var wit;
    cleared, wit := ChecksumLoop(cover, field);
    ChangesJustified(orig, cover[..], field, wit);
    NothingListed(cleared, orig, cover[..]);
  }

  /** The checksum loop of clear_tile. */
  method ChecksumLoop(cover: array<int>, field: seq<int>) returns (cleared: seq<int>, ghost wit: seq<Support>)
    requires cover.Length == Cells && |field| == Cells && HintsCorrect(field)
    requires CoverOk(cover[..], field)
    modifies cover
    ensures Progress(old(cover[..]), cover[..], field, cleared, wit)
    ensures Sum(old(cover[..])) < Cells * QuestionMarkId ==> Fixpoint(cover[..], field)
    ensures Sum(old(cover[..])) >= Cells * QuestionMarkId ==> cover[..] == old(cover[..])
    ensures Fixpoint(old(cover[..]), field) ==> cover[..] == old(cover[..])
  {
    HintRange(field);
    ghost var orig := cover[..];
    wit := seq(Cells, x => Support(0, 0));
    var checksums := [Cells * QuestionMarkId, Sum(cover[..])];
    var iterations := 1;
    ghost var startSum := checksums[1];
    cleared := [];
    while checksums[iterations] < checksums[iterations - 1]
      invariant iterations == |checksums| - 1 >= 1
      invariant checksums[iterations] == Sum(cover[..])
      invariant checksums[iterations - 1] >= 0
      invariant Progress(orig, cover[..], field, cleared, wit)
      invariant iterations == 1 ==> cover[..] == orig && checksums[0] == Cells * QuestionMarkId
      invariant iterations >= 2 ==> startSum < Cells * QuestionMarkId
      invariant iterations >= 2 && checksums[iterations] >= checksums[iterations - 1] ==> Fixpoint(cover[..], field)
      invariant Fixpoint(orig, field) ==> cover[..] == orig
      decreases checksums[iterations - 1]
    {
      cleared, wit := Pass(cover, field, cleared, wit, orig);
      checksums := checksums + [Sum(cover[..])];
      iterations := iterations + 1;
    }
  }

  /** One round of the checksum loop: the forward and then the reverse sweep. */
  method Pass(cover: array<int>, field: seq<int>, cleared: seq<int>,
              ghost wit: seq<Support>, ghost orig: seq<int>)
    returns (cleared': seq<int>, ghost wit': seq<Support>)
    requires cover.Length == Cells && |field| == Cells && HintsCorrect(field)
    requires Progress(orig, cover[..], field, cleared, wit)
    modifies cover
    ensures Progress(orig, cover[..], field, cleared', wit')
    ensures Uncovers(old(cover[..]), cover[..], field)
    ensures ClearedIn(old(cover[..]), cover[..], field, 0, Cells)
    ensures Sum(cover[..]) >= Sum(old(cover[..])) ==> cover[..] == old(cover[..]) && Fixpoint(cover[..], field)
    ensures Fixpoint(old(cover[..]), field) ==> cover[..] == old(cover[..])
  {
    ghost var before := cover[..];
    cleared', wit' := ForwardSweep(cover, field, cleared, wit, orig);
    ghost var mid := cover[..];
    cleared', wit' := ReverseSweep(cover, field, cleared', wit', orig);
    PassSettles(before, mid, cover[..], field);
  }

  /** Where nothing changed, nothing is listed as uncovered. */
  lemma NothingListed(cl: seq<int>, o: seq<int>, c: seq<int>)
    requires ClearedExactly(cl, o, c)
    ensures c == o ==> cl == []
  {
    if cl != [] {
      var x := cl[0];
      assert x in cl;
    }
  }

  /** A pass of both sweeps uncovers every neighbour of a cell that showed 0
      when it began; if it does not lower the checksum it changed nothing,
      and then nothing is left to uncover. */
  lemma PassSettles(before: seq<int>, mid: seq<int>, after: seq<int>, f: seq<int>)
    requires |f| == Cells && HintsCorrect(f)
    requires Uncovers(before, mid, f) && Uncovers(mid, after, f)
    requires ClearedIn(before, mid, f, 0, Cells) && ClearedIn(mid, after, f, 0, Cells)
    ensures Uncovers(before, after, f)
    ensures ClearedIn(before, after, f, 0, Cells)
    ensures Sum(after) >= Sum(before) ==> after == before && Fixpoint(after, f)
  {
    HintRange(f);
    if Sum(after) >= Sum(before) {
      SumPointwise(after, before);
    }
  }

  /** Each uncovered cell is a non-mine at the end of a chain of 0 cells
      that starts from a cell showing 0 in o. */
  lemma ChangesJustified(o: seq<int>, c: seq<int>, f: seq<int>, wit: seq<Support>)
    requires |f| == Cells && HintsCorrect(f)
    requires CoverOk(c, f) && Witnessed(o, c, wit)
    ensures forall x :: 0 <= x < Cells && c[x] != o[x] ==>
      f[x] != MineId && exists p :: ZeroPath(c, p) && o[p[0]] == EmptyId && p[|p| - 1] == x
  {
    HintRange(f);
    forall x | 0 <= x < Cells && c[x] != o[x]
      ensures f[x] != MineId && exists p :: ZeroPath(c, p) && o[p[0]] == EmptyId && p[|p| - 1] == x
    {
      assert Supported(o, c, wit, x);
      ZeroHasNoMineNeighbour(f, wit[x].from, x);
      var p := SupportChain(o, c, wit, x);
    }
  }
}
