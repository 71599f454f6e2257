/**
 The hint engine: the run-length clue of one row or column of a solution.

 `Runs` is the reference definition: the lengths of the maximal runs of
 filled cells, left to right. The clue the source stores keeps each length
 in an 8-bit counter, so `Clue` reduces every length modulo 256 and drops a
 run whose counter came back to 0. `CalculateHints` is the scanning loop
 itself, proved to compute `Clue`.
 */
module Hints {
  import opened Board

  /** The number of filled cells at the start of s. */
  function FilledPrefix(s: seq<BoardCell>): (k: nat)
    ensures k <= |s|
    ensures forall i :: 0 <= i < k ==> s[i] == Filled
    ensures k < |s| ==> s[k] != Filled
  {
    if |s| > 0 && s[0] == Filled then 1 + FilledPrefix(s[1..]) else 0
  }

  /** Lengths of the maximal runs of filled cells, in order. */
  function Runs(s: seq<BoardCell>): (runs: seq<nat>)
    ensures forall i :: 0 <= i < |runs| ==> runs[i] >= 1
    decreases |s|
  {
    if |s| == 0 then []
    else if s[0] != Filled then Runs(s[1..])
    else
      var k := FilledPrefix(s);
      [k] + Runs(s[k..])
  }

  /** The run lengths as an 8-bit counter records them: modulo 256, zeros dropped. */
  function Stored(runs: seq<nat>): (hints: seq<Byte>)
    ensures |hints| <= |runs|
    ensures forall i :: 0 <= i < |hints| ==> hints[i] >= 1
  {
    if |runs| == 0 then []
    else (if runs[0] % 256 == 0 then [] else [runs[0] % 256]) + Stored(runs[1..])
  }

  /** The clue of a line as the source stores it. */
  function Clue(s: seq<BoardCell>): seq<Byte>
  {
    Stored(Runs(s))
  }

  function Sum(xs: seq<nat>): nat
  {
    if |xs| == 0 then 0 else xs[0] + Sum(xs[1..])
  }

  function CountFilled(s: seq<BoardCell>): nat
  {
    if |s| == 0 then 0 else (if s[0] == Filled then 1 else 0) + CountFilled(s[1..])
  }

  /** A block of k filled cells that cannot be extended starts the runs with k. */
  lemma RunBlock(s: seq<BoardCell>, k: nat)
    requires 0 < k <= |s|
    requires forall i :: 0 <= i < k ==> s[i] == Filled
    requires k == |s| || s[k] != Filled
    ensures Runs(s) == [k] + Runs(s[k..])
  {
  }

  lemma CountFilledAppend(a: seq<BoardCell>, b: seq<BoardCell>)
    ensures CountFilled(a + b) == CountFilled(a) + CountFilled(b)
    decreases |a|
  {
    if |a| == 0 {
      assert a + b == b;
    } else {
      assert (a + b)[1..] == a[1..] + b;
      CountFilledAppend(a[1..], b);
    }
  }

  lemma CountFilledAllFilled(s: seq<BoardCell>)
    requires forall i :: 0 <= i < |s| ==> s[i] == Filled
    ensures CountFilled(s) == |s|
    decreases |s|
  {
    if |s| > 0 {
      CountFilledAllFilled(s[1..]);
    }
  }

  /** Every filled cell lies in exactly one run: the runs add up to the filled count. */
  lemma {:induction false} RunsSum(s: seq<BoardCell>)
    ensures Sum(Runs(s)) == CountFilled(s)
    decreases |s|
  {
    if |s| > 0 {
      if s[0] != Filled {
        RunsSum(s[1..]);
      } else {
        var k := FilledPrefix(s);
        RunsSum(s[k..]);
        assert s == s[..k] + s[k..];
        CountFilledAppend(s[..k], s[k..]);
        CountFilledAllFilled(s[..k]);
        assert ([k] + Runs(s[k..]))[1..] == Runs(s[k..]);
      }
    }
  }

  /** A line has no runs exactly when it has no filled cell. */
  lemma {:induction false} RunsEmptyIff(s: seq<BoardCell>)
    ensures Runs(s) == [] <==> forall i :: 0 <= i < |s| ==> s[i] != Filled
    decreases |s|
  {
    if |s| > 0 && s[0] != Filled {
      RunsEmptyIff(s[1..]);
      assert forall i :: 1 <= i < |s| ==> s[i] == s[1..][i - 1];
    }
  }

  /** A line of n > 0 filled cells has the single run n. */
  lemma AllFilledRuns(s: seq<BoardCell>)
    requires |s| > 0
    requires forall i :: 0 <= i < |s| ==> s[i] == Filled
    ensures Runs(s) == [|s|]
  {
    RunBlock(s, |s|);
  }

  /** A line that starts with a cell that is not filled has the runs of its tail. */
  lemma RunsSkipHead(s: seq<BoardCell>)
    requires |s| > 0 && s[0] != Filled
    ensures Runs(s) == Runs(s[1..])
  {
  }

  /** A separating cell followed by b has the runs of b. */
  lemma RunsSeparatorFirst(c: BoardCell, b: seq<BoardCell>)
    requires c != Filled
    ensures Runs([c] + b) == Runs(b)
  {
    var s := [c] + b;
    assert s[0] == c;
    assert s[1..] == b;
    RunsSkipHead(s);
  }

  /**
   A cell that is not filled separates the runs on its two sides: the runs
   of the whole line are the runs of the left part followed by those of the
   right part.
   */
  lemma {:induction false} RunsSplit(a: seq<BoardCell>, c: BoardCell, b: seq<BoardCell>)
    requires c != Filled
    ensures Runs(a + [c] + b) == Runs(a) + Runs(b)
    decreases |a|
  {
    if |a| == 0 {
      assert a + [c] + b == [c] + b;
      RunsSeparatorFirst(c, b);
    } else if a[0] != Filled {
      RunsSplitClearHead(a, c, b);
    } else {
      RunsSplitBlockHead(a, c, b);
    }
  }

  /** RunsSplit when a starts with a cell that is not filled. */
  lemma {:induction false} RunsSplitClearHead(a: seq<BoardCell>, c: BoardCell, b: seq<BoardCell>)
    requires c != Filled
    requires |a| > 0 && a[0] != Filled
    ensures Runs(a + [c] + b) == Runs(a) + Runs(b)
    decreases |a|, 0
  {
    var s := a + [c] + b;
    assert s[0] == a[0];
    assert s[1..] == a[1..] + [c] + b;
    RunsSkipHead(s);
    RunsSkipHead(a);
    RunsSplit(a[1..], c, b);
  }

  /** The leading block of a, ended by a or by the separator, starts the runs of a + [c] + b. */
  lemma PrefixBlockSplit(a: seq<BoardCell>, c: BoardCell, b: seq<BoardCell>)
    requires c != Filled
    requires |a| > 0 && a[0] == Filled
    ensures 0 < FilledPrefix(a)
    ensures Runs(a + [c] + b) == [FilledPrefix(a)] + Runs((a + [c] + b)[FilledPrefix(a)..])
  {
    var s := a + [c] + b;
    var k := FilledPrefix(a);
    assert forall i :: 0 <= i < k ==> s[i] == a[i];
    assert s[k] == if k == |a| then c else a[k];
    RunBlock(s, k);
  }

  /** RunsSplit when a starts with a block of filled cells. */
  lemma {:induction false} RunsSplitBlockHead(a: seq<BoardCell>, c: BoardCell, b: seq<BoardCell>)
    requires c != Filled
    requires |a| > 0 && a[0] == Filled
    ensures Runs(a + [c] + b) == Runs(a) + Runs(b)
    decreases |a|, 0
  {
    var s := a + [c] + b;
    var k := FilledPrefix(a);
    PrefixBlockSplit(a, c, b);
    RunBlock(a, k);
    if k == |a| {
      assert s[k..] == [c] + b;
      RunsSeparatorFirst(c, b);
      assert a[k..] == [];
      assert Runs(a) == [k];
      assert Runs(s) == [k] + Runs(b);
    } else {
      assert s[k..] == a[k..] + [c] + b;
      RunsSplit(a[k..], c, b);
      assert Runs(s) == [k] + (Runs(a[k..]) + Runs(b));
      assert [k] + (Runs(a[k..]) + Runs(b)) == ([k] + Runs(a[k..])) + Runs(b);
    }
  }

  lemma StoredAppend(xs: seq<nat>, ys: seq<nat>)
    ensures Stored(xs + ys) == Stored(xs) + Stored(ys)
    decreases |xs|
  {
    if |xs| == 0 {
      assert xs + ys == ys;
    } else {
      assert (xs + ys)[1..] == xs[1..] + ys;
      StoredAppend(xs[1..], ys);
    }
  }

  /** Runs shorter than 256 are stored unchanged. */
  lemma {:induction false} StoredExact(runs: seq<nat>)
    requires forall i :: 0 <= i < |runs| ==> 1 <= runs[i] < 256
    ensures Stored(runs) == runs
    decreases |runs|
  {
    if |runs| > 0 {
      StoredExact(runs[1..]);
      assert runs == [runs[0]] + runs[1..];
    }
  }

  /** No run is longer than the line. */
  lemma {:induction false} RunsBounded(s: seq<BoardCell>)
    ensures forall i :: 0 <= i < |Runs(s)| ==> Runs(s)[i] <= |s|
    decreases |s|
  {
    if |s| > 0 {
      if s[0] != Filled {
        RunsBounded(s[1..]);
      } else {
        RunsBounded(s[FilledPrefix(s)..]);
      }
    }
  }

  /** Every run length fits the 8-bit counter. */
  predicate RunsFit(runs: seq<nat>)
  {
    forall i :: 0 <= i < |runs| ==> runs[i] < 256
  }

  /** The stored clue is exactly the list of runs if and only if every run is shorter than 256. */
  lemma ClueIsRuns(s: seq<BoardCell>)
    ensures Clue(s) == Runs(s) <==> RunsFit(Runs(s))
  {
    if RunsFit(Runs(s)) {
      StoredExact(Runs(s));
    }
  }

  /** A line shorter than 256 cells has only runs that fit, so its clue is its list of runs. */
  lemma ShortLineClueIsRuns(s: seq<BoardCell>)
    requires |s| < 256
    ensures RunsFit(Runs(s)) && Clue(s) == Runs(s)
  {
    RunsBounded(s);
    ClueIsRuns(s);
  }

  /** A line without filled cells has the empty clue, never a clue holding 0. */
  lemma NoFilledNoClue(s: seq<BoardCell>)
    requires forall i :: 0 <= i < |s| ==> s[i] != Filled
    ensures Clue(s) == []
  {
    RunsEmptyIff(s);
  }

  /** When every run fits the counter, the stored clue adds up to the number of filled cells. */
  lemma ClueSum(s: seq<BoardCell>)
    requires RunsFit(Runs(s))
    ensures Sum(Clue(s)) == CountFilled(s)
  {
    ClueIsRuns(s);
    RunsSum(s);
  }

  /** The 8-bit counter wraps: a run of 256 filled cells leaves no hint at all. */
  lemma WrappedRunVanishes(s: seq<BoardCell>)
    requires |s| == 256
    requires forall i :: 0 <= i < |s| ==> s[i] == Filled
    ensures Runs(s) == [256] && Clue(s) == []
  {
    AllFilledRuns(s);
  }

  /** A cell that is not filled contributes nothing to the clue of the suffix it starts. */
  lemma ClueSkip(line: seq<BoardCell>, i: nat)
    requires i < |line| && line[i] != Filled
    ensures Clue(line[i..]) == Clue(line[i + 1..])
  {
    assert line[i..][1..] == line[i + 1..];
  }

  /** Clear cells contribute nothing to the clue. */
  lemma {:induction false} ClueSkipClear(line: seq<BoardCell>, from: nat, to: nat)
    requires from <= to <= |line|
    requires forall j :: from <= j < to ==> line[j] == Clear
    ensures Clue(line[from..]) == Clue(line[to..])
    decreases |line| - from
  {
    if from < to {
      ClueSkip(line, from);
      ClueSkipClear(line, from + 1, to);
    }
  }

  /**
   A maximal block of filled cells from start to i contributes its length,
   modulo 256, to the clue of the suffix it starts, unless that is 0.
   */
  lemma ClueBlock(line: seq<BoardCell>, start: nat, i: nat)
    requires start < i <= |line|
    requires forall j :: start <= j < i ==> line[j] == Filled
    requires i == |line| || line[i] != Filled
    ensures Clue(line[start..]) == (if (i - start) % 256 == 0 then [] else [(i - start) % 256]) + Clue(line[i..])
  {
    var run, k := line[start..], i - start;
    assert forall j :: 0 <= j < k ==> run[j] == line[start + j];
    RunBlock(run, k);
    assert run[k..] == line[i..];
    StoredAppend([k], Runs(line[i..]));
    assert Stored([k]) == (if k % 256 == 0 then [] else [k % 256]) by {
      assert [k][1..] == [];
    }
  }

  /** One pass of the outer scanning loop, from start to i, in terms of the clue. */
  lemma ClueStep(line: seq<BoardCell>, start: nat, i: nat, count: Byte)
    requires start <= i <= |line|
    requires forall j :: start <= j < i ==> line[j] == Filled
    requires i == |line| || line[i] != Filled
    requires count == (i - start) % 256
    ensures Clue(line[start..]) == (if count > 0 then [count] else []) + Clue(line[i..])
  {
    if i > start {
      ClueBlock(line, start, i);
    } else {
      assert [] + Clue(line[i..]) == Clue(line[i..]);
    }
  }

  /**
   One pass of the outer scanning loop: clear cells from top to start, then
   a maximal block of filled cells from start to i counted in `count`.
   Appending the counter when it is not 0 keeps the loop invariant.
   */
  lemma ScanStep(line: seq<BoardCell>, hints: seq<Byte>, top: nat, start: nat, i: nat, count: Byte)
    requires top <= start <= i <= |line|
    requires hints + Clue(line[top..]) == Clue(line)
    requires forall j :: top <= j < start ==> line[j] == Clear
    requires forall j :: start <= j < i ==> line[j] == Filled
    requires i == |line| || line[i] != Filled
    requires count == (i - start) % 256
    ensures (if count > 0 then hints + [count] else hints) + Clue(line[i..]) == Clue(line)
  {
    ClueSkipClear(line, top, start);
    ClueStep(line, start, i, count);
    var rest := Clue(line[i..]);
    if count > 0 {
      assert Clue(line[top..]) == [count] + rest;
      assert hints + ([count] + rest) == (hints + [count]) + rest;
    } else {
      assert [] + rest == rest;
      assert Clue(line[top..]) == rest;
    }
  }

  /** The first inner loop of `calculate_hints`: step over clear cells from `from`. */
  method SkipClear(line: seq<BoardCell>, from: nat) returns (i: nat)
    requires from <= |line|
    ensures from <= i <= |line|
    ensures forall j :: from <= j < i ==> line[j] == Clear
    ensures i == |line| || line[i] != Clear
  {
    i := from;
    while i < |line| && line[i] == Clear
      invariant from <= i <= |line|
      invariant forall j :: from <= j < i ==> line[j] == Clear
    {
      i := i + 1;
    }
  }

  /** Incrementing an 8-bit counter that holds n modulo 256 gives n + 1 modulo 256. */
  lemma WrapStep(n: nat)
    ensures (n % 256 + 1) % 256 == (n + 1) % 256
  {
  }

  /**
   The second inner loop of `calculate_hints`: step over filled cells from
   `from`, counting them in an 8-bit counter that wraps at 256.
   */
  method CountRun(line: seq<BoardCell>, from: nat) returns (i: nat, count: Byte)
    requires from <= |line|
    ensures from <= i <= |line|
    ensures forall j :: from <= j < i ==> line[j] == Filled
    ensures i == |line| || line[i] != Filled
    ensures count == (i - from) % 256
  {
    i, count := from, 0;
    while i < |line| && line[i] == Filled
      invariant from <= i <= |line|
      invariant forall j :: from <= j < i ==> line[j] == Filled
      invariant count == (i - from) % 256
    {
      WrapStep(i - from);
      count := (count + 1) % 256;
      i := i + 1;
    }
  }

  /**
   One pass of the outer loop of `calculate_hints` begun on a marked cell:
   neither inner loop moves and nothing is counted, so the pass ends where it
   began. This is why `CalculateHints` requires a line without marked cells.
   */
  method MarkedCellStalls(line: seq<BoardCell>, i: nat) returns (start: nat, next: nat, count: Byte)
    requires i < |line| && line[i] == Marked
    ensures start == i && next == i && count == 0
  {
    start := SkipClear(line, i);
    next, count := CountRun(line, start);
  }

  /**
   `calculate_hints`: skip clear cells, count the filled cells that follow
   in an 8-bit counter, record the counter when it is not 0, and repeat.
   The loops only step over clear and filled cells; a marked cell would stop
   both inner loops without advancing, so the line must hold none.
   */
  method CalculateHints(line: seq<BoardCell>) returns (hints: seq<Byte>)
    requires forall i :: 0 <= i < |line| ==> line[i] != Marked
    ensures hints == Clue(line)
  {
    var i := 0;
    hints := [];
    while i < |line|
      invariant 0 <= i <= |line|
      invariant hints + Clue(line[i..]) == Clue(line)
      decreases |line| - i
    {
      ghost var top := i;
      var start := SkipClear(line, i);
      var count: Byte;
      i, count := CountRun(line, start);
      assert i > top;
      ScanStep(line, hints, top, start, i, count);
      if count > 0 {
        hints := hints + [count];
      }
    }
    assert line[i..] == [];
  }
}
