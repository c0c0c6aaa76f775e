/** What the depth-first search of every variant computes, stated without
    any search: the valid completions of a partial assignment, listed in the
    order a walk that fixes cells in row-major order and tries 0 before 1
    meets them, cut off at the solution cap. */
module QrSearch {
  import opened QrBoard

  /** The valid boards whose first |p| cells are p, in the order in which a
      depth-first walk over the remaining cells, 0 before 1, reaches them. */
  ghost function Completions(p: seq<bool>): seq<Board>
    requires |p| <= Cells
    decreases Cells - |p|
  {
    if |p| == Cells then (if Valid(p) then [p] else [])
    else Completions(p + [false]) + Completions(p + [true])
  }

  /** The first k elements of s (all of s when it is shorter). */
  function Take<T>(s: seq<T>, k: int): seq<T>
  {
    if k <= 0 then [] else if k < |s| then s[..k] else s
  }

  /** The boards every variant's search collects from the empty board with
      room for cap solutions. */
  ghost function FirstValid(cap: nat): seq<Board>
  {
    Take(Completions([]), cap)
  }

  /** With a smaller cap the search keeps a prefix of what it keeps with a
      larger one: the variants (caps 1, 5 and 10) find the same boards in
      the same order, as far as the smaller cap reaches. */
  lemma FirstValidPrefix(a: nat, b: nat)
    requires a <= b
    ensures FirstValid(a) == Take(FirstValid(b), a)
  {
    var s := Completions([]);
    if 0 < a < |s| && b < |s| {
      assert s[..b][..a] == s[..a];
    }
  }

  /** The completions below the first n values (0, then 1) of the cell
      that follows p: what a search has collected after n branches. */
  ghost function Branches(p: seq<bool>, n: int): seq<Board>
    requires |p| < Cells
  {
    if n <= 0 then []
    else if n == 1 then Completions(p + [false])
    else Completions(p + [false]) + Completions(p + [true])
  }

  /** One more branch adds the completions with that value in the cell. */
  lemma BranchesStep(p: seq<bool>, n: int)
    requires |p| < Cells && 0 <= n <= 1
    ensures Branches(p, n + 1) == Branches(p, n) + Completions(p + [n == 1])
  {
    if n == 0 {
      assert Branches(p, 0) + Completions(p + [false]) == Completions(p + [false]);
    }
  }

  /** The row-major successor of cell (linha, coluna): the next column, or
      column 0 of the next row after the last column (the if-based form both
      C variants use). Row Size with column 0 stands for "board complete". */
  function NextCell(linha: int, coluna: int): (next: (int, int))
    requires 0 <= linha < Size && 0 <= coluna < Size
    ensures next.0 * 12 + next.1 == linha * 12 + coluna + 1
    ensures 0 <= next.0 <= Size && 0 <= next.1 < Size
    ensures next.0 == Size ==> next.1 == 0
  {
    var proximaColuna := coluna + 1;
    if proximaColuna == Size then (linha + 1, 0) else (linha, proximaColuna)
  }

  /** a comes strictly before b when the first cell where they differ is
      empty in a and filled in b. */
  ghost predicate LexLess(a: seq<bool>, b: seq<bool>)
  {
    exists k :: 0 <= k < |a| && k < |b| && a[..k] == b[..k] && !a[k] && b[k]
  }

  /** b extends the partial assignment p. */
  ghost predicate Extends(b: Board, p: seq<bool>)
  {
    |p| <= Cells && b[..|p|] == p
  }

  /** Every listed completion is a valid board extending p. */
  lemma {:induction false} CompletionsSound(p: seq<bool>)
    requires |p| <= Cells
    ensures forall b :: b in Completions(p) ==> Valid(b) && Extends(b, p)
    decreases Cells - |p|
  {
    if |p| < Cells {
      CompletionsSound(p + [false]);
      CompletionsSound(p + [true]);
      forall b | b in Completions(p)
        ensures Valid(b) && Extends(b, p)
      {
        if b in Completions(p + [false]) {
          assert b[..|p|] == b[..|p| + 1][..|p|];
        } else {
          assert b[..|p|] == b[..|p| + 1][..|p|];
        }
      }
    }
  }

  /** Every valid board extending p is listed. */
  lemma {:induction false} CompletionsComplete(p: seq<bool>, b: Board)
    requires Extends(b, p) && Valid(b)
    ensures b in Completions(p)
    decreases Cells - |p|
  {
    if |p| < Cells {
      var q := p + [b[|p|]];
      assert b[..|q|] == q;
      CompletionsComplete(q, b);
      if b[|p|] {
        assert q == p + [true];
      } else {
        assert q == p + [false];
      }
    } else {
      assert b == p;
    }
  }

  /** The listing is strictly increasing in lexicographic order, so it has no
      repeats and is the sorted list of the valid extensions of p. */
  lemma {:induction false} CompletionsOrdered(p: seq<bool>)
    requires |p| <= Cells
    ensures forall i, j :: 0 <= i < j < |Completions(p)| ==> LexLess(Completions(p)[i], Completions(p)[j])
    decreases Cells - |p|
  {
    if |p| < Cells {
      var lo, hi := Completions(p + [false]), Completions(p + [true]);
      CompletionsOrdered(p + [false]);
      CompletionsOrdered(p + [true]);
      CompletionsSound(p + [false]);
      CompletionsSound(p + [true]);
      var all := lo + hi;
      forall i, j | 0 <= i < j < |all|
        ensures LexLess(all[i], all[j])
      {
        if j < |lo| {
          assert all[i] == lo[i] && all[j] == lo[j];
        } else if |lo| <= i {
          assert all[i] == hi[i - |lo|] && all[j] == hi[j - |lo|];
        } else {
          assert all[i] in lo && all[j] in hi;
          SplitOrdered(p, all[i], all[j]);
        }
      }
    }
  }

  /** A board extending p with a 0 in the next cell comes before one
      extending p with a 1 there. */
  lemma SplitOrdered(p: seq<bool>, a: Board, b: Board)
    requires |p| < Cells && Extends(a, p + [false]) && Extends(b, p + [true])
    ensures LexLess(a, b)
  {
    var k := |p|;
    assert a[..k] == a[..k + 1][..k] == p;
    assert b[..k] == b[..k + 1][..k] == p;
    assert a[k] == a[..k + 1][k] == false;
    assert b[k] == b[..k + 1][k] == true;
  }

  /** Taking k from a concatenation: k from the front, then what is left
      of k from the back. This is how the solutions found under the 0
      branch and the 1 branch combine. */
  lemma TakeConcat<T>(a: seq<T>, b: seq<T>, k: int)
    requires k >= 0
    ensures Take(a, k) + Take(b, k - |Take(a, k)|) == Take(a + b, k)
  {
    if k < |a| {
      assert (a + b)[..k] == a[..k];
    } else if k == |a| {
      assert (a + b)[..k] == a;
    } else if k - |a| < |b| {
      assert (a + b)[..k] == a + b[..k - |a|];
    }
  }

  /** A search that appends up to the cap from a, and then from b with the
      room that is left, has appended up to the cap from a + b. */
  lemma TakeSequential<T>(sols: seq<T>, a: seq<T>, b: seq<T>, cap: int, mid: seq<T>, fin: seq<T>)
    requires mid == sols + Take(a, cap - |sols|)
    requires fin == mid + Take(b, cap - |mid|)
    ensures fin == sols + Take(a + b, cap - |sols|)
  {
    if cap - |sols| <= 0 {
      assert mid == sols;
      assert fin == sols;
    } else {
      TakeConcat(a, b, cap - |sols|);
    }
  }

  /** The listing splits at the next cell: completions with a 0 there,
      then those with a 1. */
  lemma CompletionsSplit(p: seq<bool>)
    requires |p| < Cells
    ensures Completions(p) == Completions(p + [false]) + Completions(p + [true])
  {
  }

  /** What a search call appends is within the cap and made of valid
      boards. */
  lemma AppendedValid(sols: seq<Board>, p: seq<bool>, cap: int, fin: seq<Board>)
    requires |p| <= Cells
    requires fin == sols + Take(Completions(p), cap - |sols|)
    ensures |sols| <= |fin| <= (if |sols| < cap then cap else |sols|)
    ensures forall s :: s in fin[|sols|..] ==> Valid(s)
  {
    CompletionsSound(p);
    TakeBound(Completions(p), cap - |sols|);
    assert fin[|sols|..] == Take(Completions(p), cap - |sols|);
  }

  lemma TakeBound<T>(s: seq<T>, k: int)
    ensures |Take(s, k)| <= (if k < 0 then 0 else k)
    ensures forall x :: x in Take(s, k) ==> x in s
  {
  }
}
