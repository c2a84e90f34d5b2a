/**
 * The n-queens instance (Nreinas): variable i is the queen of row i, its
 * value the column it stands in, every queen is the neighbour of every
 * other, and two queens are compatible when they share neither a column nor
 * a diagonal.
 */
module NQueens {
  import opened Csp

  function Abs(k: int): (r: nat)
    ensures r == k || r == -k
  {
    if k < 0 then -k else k
  }

  /** Chess attack, stated by lines of the board: same column, same rising or same falling diagonal. */
  ghost predicate Attacks(p: (int, int), q: (int, int)) {
    p.1 == q.1 || p.0 + p.1 == q.0 + q.1 || p.0 - p.1 == q.0 - q.1
  }

  /**
   * Nreinas.restriccion: queen (row, column) p and queen q are not in the
   * same column and their column distance differs from their row distance;
   * that is, exactly the pairs of squares that do not attack each other.
   */
  predicate Admissible(p: (int, int), q: (int, int))
    ensures Admissible(p, q) <==> !Attacks(p, q)
  {
    p.1 != q.1 && Abs(p.1 - q.1) != Abs(p.0 - q.0)
  }

  /** Two queens in one column always conflict. */
  lemma SameColumnConflicts(xi: int, xj: int, c: int)
    ensures !Admissible((xi, c), (xj, c))
  {
  }

  /** Two queens on one diagonal always conflict. */
  lemma SameDiagonalConflicts(xi: int, vi: int, xj: int, vj: int)
    requires Abs(vi - vj) == Abs(xi - xj)
    ensures !Admissible((xi, vi), (xj, vj))
  {
  }

  /** The predicate does not depend on which queen comes first. */
  lemma AdmissibleSymmetric(p: (int, int), q: (int, int))
    ensures Admissible(p, q) == Admissible(q, p)
  {
    assert Abs(p.1 - q.1) == Abs(q.1 - p.1) && Abs(p.0 - q.0) == Abs(q.0 - p.0);
  }

  /** Python's range(n): 0, 1, ..., n - 1, empty when n <= 0. */
  function Range(n: int): (r: seq<int>)
    ensures |r| == if n < 0 then 0 else n
    ensures forall k :: 0 <= k < |r| ==> r[k] == k
    ensures forall v :: v in r <==> 0 <= v < n
  {
    if n <= 0 then [] else Range(n - 1) + [n - 1]
  }

  /** The rows other than i. */
  function Rivals(n: int, i: int): (r: set<int>)
    ensures forall j :: j in r <==> 0 <= j < n && j != i
  {
    set j | j in Range(n) && j != i
  }

  /** The domains Nreinas(n) builds: every row 0..n-1 may take every column. */
  function QueenDomains(n: int): (d: map<int, seq<int>>)
    ensures forall i :: i in d <==> 0 <= i < n
    ensures forall i, v :: i in d ==> (v in d[i] <==> 0 <= v < n)
  {
    map i | i in Range(n) :: Range(n)
  }

  /** The neighbour sets Nreinas(n) builds: every row is a neighbour of every other row. */
  function QueenNeighbors(n: int): (g: map<int, set<int>>)
    ensures forall i :: i in g <==> 0 <= i < n
    ensures forall i, j :: i in g ==> (j in g[i] <==> 0 <= j < n && j != i)
  {
    map i | i in Range(n) :: Rivals(n, i)
  }

  /** Nreinas(n): fills both dictionaries row by row on a fresh constraint graph. */
  method NewQueens(n: int) returns (gr: ConstraintGraph<int, int>)
    ensures fresh(gr) && gr.constraint == Admissible && gr.backtracking == 0
    ensures gr.domain == QueenDomains(n) && gr.neighbors == QueenNeighbors(n)
  {
    gr := new ConstraintGraph(Admissible);
    var row := 0;
    while row < n
      invariant 0 <= row && (row <= n || row == 0)
      invariant forall i :: i in gr.domain <==> 0 <= i < row
      invariant forall i :: i in gr.domain ==> gr.domain[i] == Range(n)
      invariant forall i :: i in gr.neighbors <==> 0 <= i < row
      invariant forall i :: i in gr.neighbors ==> gr.neighbors[i] == Rivals(n, i)
      invariant gr.constraint == Admissible && gr.backtracking == 0
    {
      gr.domain := gr.domain[row := Range(n)];
      gr.neighbors := gr.neighbors[row := Rivals(n, row)];
      row := row + 1;
    }
  }

  /** The queens graph is well formed: every neighbour is a variable. */
  lemma QueensWellFormed(n: int)
    ensures WellFormed(QueenDomains(n), QueenNeighbors(n))
  {
  }

  /** The neighbour relation is irreflexive and symmetric and the predicate symmetric. */
  lemma QueensSymmetric(n: int)
    ensures SymmetricInstance(Admissible, QueenNeighbors(n))
  {
    forall p: (int, int), q: (int, int) ensures Admissible(p, q) == Admissible(q, p) {
      AdmissibleSymmetric(p, q);
    }
  }

  /** A placement of one queen per row 0..n-1, each on a column 0..n-1, no two attacking. */
  ghost predicate QueensSolution(n: int, a: map<int, int>) {
    && (forall i :: i in a <==> 0 <= i < n)
    && (forall i :: i in a ==> 0 <= a[i] < n)
    && (forall i, j :: i in a && j in a && i != j ==> !Attacks((i, a[i]), (j, a[j])))
  }

  /**
   * On complete placements with columns in range, satisfying the predicate
   * on every neighbour pair is the same as being a solution.
   */
  lemma ConsistentIffSolution(n: int, a: map<int, int>)
    requires forall i :: i in a <==> 0 <= i < n
    requires forall i :: i in a ==> 0 <= a[i] < n
    ensures Consistent(Admissible, QueenNeighbors(n), a) <==> QueensSolution(n, a)
  {
    var g := QueenNeighbors(n);
    if Consistent(Admissible, g, a) {
      forall i, j | i in a && j in a && i != j ensures !Attacks((i, a[i]), (j, a[j])) {
        assert j in g[i];
      }
    }
    if QueensSolution(n, a) {
      forall i, j | i in a && j in a && i in g && j in g[i] ensures Admissible((i, a[i]), (j, a[j])) {
      }
    }
  }

  /** On a board of two or three columns, the queens of the first two or three rows include an attacking pair. */
  lemma SmallBoardClash(n: int, c0: int, c1: int, c2: int)
    requires n == 2 || n == 3
    requires 0 <= c0 < n && 0 <= c1 < n && (n == 3 ==> 0 <= c2 < n)
    ensures Attacks((0, c0), (1, c1)) || (n == 3 && (Attacks((0, c0), (2, c2)) || Attacks((1, c1), (2, c2))))
  {
  }

  /** The solutions are exactly the completions of the empty assignment on the board Nreinas(n) builds. */
  lemma CompletionIffSolution(n: int, a: map<int, int>)
    ensures IsCompletion(Admissible, QueenNeighbors(n), QueenDomains(n), map[], a) <==> QueensSolution(n, a)
  {
    var d := QueenDomains(n);
    if IsCompletion(Admissible, QueenNeighbors(n), d, map[], a) {
      assert forall i :: i in a ==> a[i] in d[i];
      ConsistentIffSolution(n, a);
    }
    if QueensSolution(n, a) {
      ConsistentIffSolution(n, a);
    }
  }

  /** Two or three queens cannot be placed (the class documentation's claim). */
  lemma NoSolutionTwoOrThree(n: int, a: map<int, int>)
    requires n == 2 || n == 3
    ensures !QueensSolution(n, a)
  {
    if 0 in a && 1 in a && 0 <= a[0] < n && 0 <= a[1] < n && (n == 3 ==> 2 in a && 0 <= a[2] < n) {
      var c2 := if n == 3 then a[2] else 0;
      SmallBoardClash(n, a[0], a[1], c2);
    }
  }

  /** Four queens can: rows 0..3 on columns 1, 3, 0, 2. */
  lemma FourQueens()
    ensures QueensSolution(4, map[0 := 1, 1 := 3, 2 := 0, 3 := 2])
    ensures exists a :: QueensSolution(4, a)
  {
    var a := map[0 := 1, 1 := 3, 2 := 0, 3 := 2];
    forall i, j | i in a && j in a && i != j ensures !Attacks((i, a[i]), (j, a[j])) {
      assert i in {0, 1, 2, 3} && j in {0, 1, 2, 3};
    }
    assert QueensSolution(4, a);
  }

  /**
   * Builds Nreinas(n) and runs the search from an empty assignment: at
   * levels 0 and 1 a returned placement is a solution, for two or three
   * queens the search reports failure, and level 2 raises on any non-empty
   * board. At levels 0 and 1 the search is also complete: it fails only
   * when no solution exists, so four queens are always placed.
   */
  method SolveQueens(n: int, level: int) returns (r: Result<Option<map<int, int>>>)
    ensures r.Ok? && r.value.Some? ==>
              (forall i :: i in r.value.value <==> 0 <= i < n) && forall i :: i in r.value.value ==> 0 <= r.value.value[i] < n
    ensures r.Ok? && r.value.Some? && (level == 0 || level == 1) ==> QueensSolution(n, r.value.value)
    ensures (level == 0 || level == 1) ==> r.Ok? && (r.value.Some? <==> exists a :: QueensSolution(n, a))
    ensures n == 4 && (level == 0 || level == 1) ==> r.Ok? && r.value.Some?
    ensures (n == 2 || n == 3) && level != 2 ==> r == Ok(None)
    ensures r.NotImplemented? <==> level == 2 && n > 0
    ensures n <= 0 ==> r == Ok(Some(map[]))
  {
    var gr := NewQueens(n);
    QueensWellFormed(n);
    QueensSymmetric(n);
    ghost var d0 := gr.domain;
    assert n > 0 ==> 0 in d0;
    assert n <= 0 ==> d0 == map[];
    r := Solve(gr, level);
    if level == 0 || level == 1 {
      if r.value.Some? {
        var a := r.value.value;
        CompletionIffSolution(n, a);
        if n == 2 || n == 3 {
          NoSolutionTwoOrThree(n, a);
        }
      } else {
        if n == 4 {
          FourQueens();
        }
        forall a ensures !QueensSolution(n, a) {
          CompletionIffSolution(n, a);
        }
      }
    }
  }
}
