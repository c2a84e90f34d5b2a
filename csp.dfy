/**
 * The generic binary constraint-satisfaction engine: the constraint graph,
 * the partial assignment the search grows and shrinks in place, the two
 * consistency levels, the variable and value ordering heuristics, and the
 * recursive backtracking search.
 */
module Csp {
  import opened Domains

  datatype Option<T> = None | Some(value: T)

  /** A call that either returns normally or raises the NotImplementedError of the unfinished level 2. */
  datatype Result<T> = Ok(value: T) | NotImplemented

  /**
   * A constraint graph (GrafoRestriccion): the current candidate values of
   * each variable, each variable's neighbours, a counter of exhausted search
   * frames, and the binary constraint the concrete problem supplies.
   */
  class ConstraintGraph<V(==), D(==)> {
    var domain: map<V, seq<D>>
    var neighbors: map<V, set<V>>
    var backtracking: nat
    const constraint: ((V, D), (V, D)) -> bool

    constructor (constraint: ((V, D), (V, D)) -> bool)
      ensures this.constraint == constraint
      ensures domain == map[] && neighbors == map[] && backtracking == 0
    {
      this.constraint := constraint;
      domain := map[];
      neighbors := map[];
      backtracking := 0;
    }

    /** Every variable has a neighbour set, and every neighbour is a variable. */
    ghost predicate Valid()
      reads this
    {
      WellFormed(domain, neighbors)
    }
  }

  /** The partial assignment: a dictionary from variables to values, updated in place. */
  class Assignment<V(==), D> {
    var pairs: map<V, D>

    constructor ()
      ensures pairs == map[]
    {
      pairs := map[];
    }
  }

  ghost predicate WellFormed<V, D>(domain: map<V, seq<D>>, neighbors: map<V, set<V>>) {
    forall x :: x in domain ==> x in neighbors && neighbors[x] <= domain.Keys
  }

  /** a agrees with every pair of b. */
  ghost predicate Extends<V, D>(a: map<V, D>, b: map<V, D>) {
    forall x :: x in b ==> x in a && a[x] == b[x]
  }

  /** Every assigned variable and every assigned neighbour of it satisfy the constraint. */
  ghost predicate Consistent<V, D>(constraint: ((V, D), (V, D)) -> bool, neighbors: map<V, set<V>>, a: map<V, D>) {
    forall x, y :: x in a && y in a && x in neighbors && y in neighbors[x] ==> constraint((x, a[x]), (y, a[y]))
  }

  /** Every value left to an unassigned neighbour of an assigned variable is compatible with it. */
  ghost predicate ForwardChecked<V, D>(constraint: ((V, D), (V, D)) -> bool, neighbors: map<V, set<V>>,
                                       domain: map<V, seq<D>>, a: map<V, D>) {
    forall x, y, w :: x in a && x in neighbors && y in neighbors[x] && y !in a && y in domain && w in domain[y]
      ==> constraint((x, a[x]), (y, w))
  }

  /** Neighbourhood is symmetric and irreflexive, and the constraint does not depend on argument order. */
  ghost predicate SymmetricInstance<V(!new), D(!new)>(constraint: ((V, D), (V, D)) -> bool, neighbors: map<V, set<V>>) {
    && (forall x, y :: x in neighbors && y in neighbors[x] ==> y in neighbors && x in neighbors[y] && x != y)
    && (forall p: (V, D), q: (V, D) :: constraint(p, q) == constraint(q, p))
  }

  /**
   * The starting states from which a returned assignment is a solution: a
   * symmetric instance, a consistent partial assignment, and at level 1 the
   * domains of its unassigned neighbours already pruned against it.
   */
  ghost predicate SoundStart<V(!new), D(!new)>(constraint: ((V, D), (V, D)) -> bool, neighbors: map<V, set<V>>,
                                   domain: map<V, seq<D>>, a: map<V, D>, level: int) {
    && SymmetricInstance(constraint, neighbors)
    && Consistent(constraint, neighbors, a)
    && (level == 0 || (level == 1 && ForwardChecked(constraint, neighbors, domain, a)))
  }

  /** The reduction forward checking produces for xi = vi: per unassigned neighbour, its rejected values. */
  ghost function ForwardReduction<V, D>(constraint: ((V, D), (V, D)) -> bool, neighbors: map<V, set<V>>,
                                        domain: map<V, seq<D>>, a: map<V, D>, xi: V, vi: D): map<V, seq<D>>
    requires WellFormed(domain, neighbors) && xi in domain
  {
    map xj | xj in neighbors[xi] && xj !in a :: Incompatible(constraint, xi, vi, xj, domain[xj])
  }

  /** Forward checking for xi = vi would leave some unassigned neighbour without values. */
  ghost predicate Wipeout<V, D>(constraint: ((V, D), (V, D)) -> bool, neighbors: map<V, set<V>>,
                                domain: map<V, seq<D>>, a: map<V, D>, xi: V, vi: D)
    requires WellFormed(domain, neighbors) && xi in domain
  {
    exists xj :: xj in neighbors[xi] && xj !in a && |Incompatible(constraint, xi, vi, xj, domain[xj])| == |domain[xj]|
  }

  /** Some assigned neighbour of xi is incompatible with xi = vi. */
  ghost predicate ClashesWithAssigned<V, D>(constraint: ((V, D), (V, D)) -> bool, neighbors: map<V, set<V>>,
                                            a: map<V, D>, xi: V, vi: D)
    requires xi in neighbors
  {
    exists xj :: xj in a && xj in neighbors[xi] && !constraint((xi, vi), (xj, a[xj]))
  }

  // ---------------------------------------------------------------------------
  // Conflict counts for value ordering

  /** Total number of rejected (neighbour, value) pairs over the neighbours in nbrs. */
  ghost function SumIncompatible<V, D>(constraint: ((V, D), (V, D)) -> bool, domain: map<V, seq<D>>,
                                       xi: V, vi: D, nbrs: set<V>): nat
    requires nbrs <= domain.Keys
    decreases nbrs
  {
    if nbrs == {} then 0
    else
      var xj :| xj in nbrs;
      |Incompatible(constraint, xi, vi, xj, domain[xj])| + SumIncompatible(constraint, domain, xi, vi, nbrs - {xj})
  }

  /** The sum does not depend on which neighbour is counted first. */
  lemma {:induction false} SumIncompatibleSplit<V, D>(constraint: ((V, D), (V, D)) -> bool, domain: map<V, seq<D>>,
                                                     xi: V, vi: D, nbrs: set<V>, y: V)
    requires nbrs <= domain.Keys && y in nbrs
    ensures SumIncompatible(constraint, domain, xi, vi, nbrs)
         == |Incompatible(constraint, xi, vi, y, domain[y])| + SumIncompatible(constraint, domain, xi, vi, nbrs - {y})
    decreases nbrs
  {
    var x :| x in nbrs && SumIncompatible(constraint, domain, xi, vi, nbrs)
                          == |Incompatible(constraint, xi, vi, x, domain[x])| + SumIncompatible(constraint, domain, xi, vi, nbrs - {x});
    if x != y {
      SumIncompatibleSplit(constraint, domain, xi, vi, nbrs - {x}, y);
      SumIncompatibleSplit(constraint, domain, xi, vi, nbrs - {y}, x);
      assert nbrs - {x} - {y} == nbrs - {y} - {x};
    }
  }

  /** No conflicts at all exactly when every neighbour accepts every one of its values. */
  lemma {:induction false} SumIncompatibleZero<V, D>(constraint: ((V, D), (V, D)) -> bool, domain: map<V, seq<D>>,
                                                    xi: V, vi: D, nbrs: set<V>)
    requires nbrs <= domain.Keys
    ensures SumIncompatible(constraint, domain, xi, vi, nbrs) == 0
        <==> forall xj :: xj in nbrs ==> Incompatible(constraint, xi, vi, xj, domain[xj]) == []
    decreases nbrs
  {
    if nbrs != {} {
      var y :| y in nbrs;
      SumIncompatibleSplit(constraint, domain, xi, vi, nbrs, y);
      SumIncompatibleZero(constraint, domain, xi, vi, nbrs - {y});
    }
  }

  /**
   * The conflict count of conflictos: zero when xi is already assigned (the
   * source tests xi, not the neighbour), otherwise the number of values of
   * all neighbours, assigned or not, that reject xi = vi.
   */
  ghost function ConflictCount<V, D>(constraint: ((V, D), (V, D)) -> bool, domain: map<V, seq<D>>,
                                     neighbors: map<V, set<V>>, a: map<V, D>, xi: V, vi: D): nat
    requires WellFormed(domain, neighbors) && xi in domain
  {
    if xi in a then 0 else SumIncompatible(constraint, domain, xi, vi, neighbors[xi])
  }

  /**
   * For an unassigned variable, a value has no conflicts exactly when every
   * neighbour, assigned or not, accepts all of its values. Forward checking
   * then prunes nothing; the converse fails, because forward checking skips
   * assigned neighbours and the count does not.
   */
  lemma NoConflictsIffAllAccepted<V, D>(constraint: ((V, D), (V, D)) -> bool, domain: map<V, seq<D>>,
                                       neighbors: map<V, set<V>>, a: map<V, D>, xi: V, vi: D)
    requires WellFormed(domain, neighbors) && xi in domain && xi !in a
    ensures ConflictCount(constraint, domain, neighbors, a, xi, vi) == 0
        <==> forall xj :: xj in neighbors[xi] ==> Incompatible(constraint, xi, vi, xj, domain[xj]) == []
  {
    SumIncompatibleZero(constraint, domain, xi, vi, neighbors[xi]);
  }

  /** conflictos: counts, neighbour by neighbour, the values that reject xi = vi. */
  method Conflicts<V, D>(gr: ConstraintGraph<V, D>, a: map<V, D>, xi: V, vi: D) returns (acc: nat)
    requires gr.Valid() && xi in gr.domain
    ensures acc == ConflictCount(gr.constraint, gr.domain, gr.neighbors, a, xi, vi)
  {
    acc := 0;
    var todo := gr.neighbors[xi];
    while todo != {}
      invariant todo <= gr.neighbors[xi]
      invariant xi !in a ==> acc + SumIncompatible(gr.constraint, gr.domain, xi, vi, todo)
                             == ConflictCount(gr.constraint, gr.domain, gr.neighbors, a, xi, vi)
      invariant xi in a ==> acc == 0
      decreases todo
    {
      var xj :| xj in todo;
      if xi !in a {
        var c := CountRejected(gr.constraint, xi, vi, xj, gr.domain[xj]);
        acc := acc + c;
        SumIncompatibleSplit(gr.constraint, gr.domain, xi, vi, todo, xj);
      }
      todo := todo - {xj};
    }
  }

  /** csp.py lines 116-119: how many values of dj reject xi = vi, counted one at a time. */
  method CountRejected<V, D>(constraint: ((V, D), (V, D)) -> bool, xi: V, vi: D, xj: V, dj: seq<D>) returns (c: nat)
    ensures c == |Incompatible(constraint, xi, vi, xj, dj)|
  {
    c := 0;
    for k := 0 to |dj|
      invariant c == |Incompatible(constraint, xi, vi, xj, dj[..k])|
    {
      assert dj[..k + 1][..k] == dj[..k];
      if !constraint((xi, vi), (xj, dj[k])) {
        c := c + 1;
      }
    }
    assert dj[..|dj|] == dj;
  }

  // ---------------------------------------------------------------------------
  // Heuristics

  /**
   * selecciona_variable. With nothing assigned: Python's max keyed by the
   * neighbour SETS, whose order is inclusion, so the result is a variable
   * whose neighbour set no other variable's strictly contains. Otherwise an
   * unassigned variable with fewest remaining values.
   */
  method SelectVariable<V, D>(gr: ConstraintGraph<V, D>, a: map<V, D>) returns (x: V)
    requires gr.Valid() && a.Keys <= gr.domain.Keys && a.Keys != gr.domain.Keys
    ensures x in gr.domain && x !in a
    ensures |a| == 0 ==> forall y :: y in gr.domain ==> !(gr.neighbors[x] < gr.neighbors[y])
    ensures |a| != 0 ==> forall y :: y in gr.domain && y !in a ==> |gr.domain[x]| <= |gr.domain[y]|
  {
    if |a| == 0 {
      x := MaximalNeighbors(gr);
    } else {
      x := FewestValues(gr, a);
    }
  }

  /** csp.py line 107: a variable whose neighbour set no other variable's strictly contains. */
  method MaximalNeighbors<V, D>(gr: ConstraintGraph<V, D>) returns (x: V)
    requires gr.Valid() && gr.domain != map[]
    ensures x in gr.domain
    ensures forall y :: y in gr.domain ==> !(gr.neighbors[x] < gr.neighbors[y])
  {
    var todo := gr.domain.Keys;
    x :| x in todo;
    todo := todo - {x};
    while todo != {}
      invariant todo <= gr.domain.Keys && x in gr.domain
      invariant forall y :: y in gr.domain && y !in todo ==> !(gr.neighbors[x] < gr.neighbors[y])
      decreases todo
    {
      var y :| y in todo;
      if gr.neighbors[x] < gr.neighbors[y] {
        x := y;
      }
      todo := todo - {y};
    }
  }

  /** csp.py lines 108-109: an unassigned variable with fewest remaining values. */
  method FewestValues<V, D>(gr: ConstraintGraph<V, D>, a: map<V, D>) returns (x: V)
    requires gr.Valid() && a.Keys <= gr.domain.Keys && a.Keys != gr.domain.Keys
    ensures x in gr.domain && x !in a
    ensures forall y :: y in gr.domain && y !in a ==> |gr.domain[x]| <= |gr.domain[y]|
  {
    var todo := gr.domain.Keys - a.Keys;
    assert gr.domain.Keys == todo + a.Keys;
    x :| x in todo;
    todo := todo - {x};
    while todo != {}
      invariant todo <= gr.domain.Keys - a.Keys && x in gr.domain && x !in a
      invariant forall y :: y in gr.domain && y !in a && y !in todo ==> |gr.domain[x]| <= |gr.domain[y]|
      decreases todo
    {
      var y :| y in todo;
      if |gr.domain[y]| < |gr.domain[x]| {
        x := y;
      }
      todo := todo - {y};
    }
  }

  /**
   * ordena_valores: the values of xi's domain sorted by conflict count,
   * largest first (the source sorts with reverse=True).
   */
  method OrderValues<V, D>(gr: ConstraintGraph<V, D>, a: map<V, D>, xi: V) returns (r: seq<D>)
    requires gr.Valid() && xi in gr.domain
    ensures multiset(r) == multiset(gr.domain[xi])
    ensures forall i, j :: 0 <= i < j < |r| ==>
              ConflictCount(gr.constraint, gr.domain, gr.neighbors, a, xi, r[i])
              >= ConflictCount(gr.constraint, gr.domain, gr.neighbors, a, xi, r[j])
  {
    var values := gr.domain[xi];
    var key: map<D, nat> := map[];
    r := [];
    for k := 0 to |values|
      invariant forall v :: v in key ==> key[v] == ConflictCount(gr.constraint, gr.domain, gr.neighbors, a, xi, v)
      invariant SortedByKey(r, key)
      invariant multiset(r) == multiset(values[..k])
    {
      var v := values[k];
      var c := Conflicts(gr, a, xi, v);
      assert forall w :: w in key ==> key[w] == key[v := c][w];
      key := key[v := c];
      InsertKeepsSorted(r, v, key);
      r := InsertByKey(r, v, key);
      assert values[..k + 1] == values[..k] + [v];
    }
    assert values[..|values|] == values;
  }

  // ---------------------------------------------------------------------------
  // Consistency

  /** Level 0: compare xi = vi with every assigned neighbour; prune nothing. */
  method CheckAssigned<V, D>(gr: ConstraintGraph<V, D>, a: map<V, D>, xi: V, vi: D) returns (r: Option<map<V, seq<D>>>)
    requires gr.Valid() && xi in gr.domain
    ensures r.None? <==> ClashesWithAssigned(gr.constraint, gr.neighbors, a, xi, vi)
    ensures r.Some? ==> r.value == map[]
  {
    var todo := a.Keys;
    while todo != {}
      invariant todo <= a.Keys
      invariant forall xj :: xj in a && xj !in todo && xj in gr.neighbors[xi] ==> gr.constraint((xi, vi), (xj, a[xj]))
      decreases todo
    {
      var xj :| xj in todo;
      if xj in gr.neighbors[xi] && !gr.constraint((xi, vi), (xj, a[xj])) {
        return None;
      }
      todo := todo - {xj};
    }
    return Some(map[]);
  }

  /**
   * Level 1 (forward checking): for each unassigned neighbour, the list of
   * its values that reject xi = vi; no reduction at all when one of those
   * lists would be the neighbour's whole domain.
   */
  method ForwardCheck<V, D>(gr: ConstraintGraph<V, D>, a: map<V, D>, xi: V, vi: D) returns (r: Option<map<V, seq<D>>>)
    requires gr.Valid() && xi in gr.domain
    ensures r.None? <==> Wipeout(gr.constraint, gr.neighbors, gr.domain, a, xi, vi)
    ensures r.Some? ==> r.value == ForwardReduction(gr.constraint, gr.neighbors, gr.domain, a, xi, vi)
  {
    var reduction: map<V, seq<D>> := map[];
    var todo := gr.neighbors[xi];
    ghost var done: set<V> := {};
    while todo != {}
      invariant todo + done == gr.neighbors[xi] && todo !! done
      invariant forall xj :: xj in reduction <==> xj in done && xj !in a
      invariant forall xj :: xj in reduction ==> reduction[xj] == Incompatible(gr.constraint, xi, vi, xj, gr.domain[xj])
      invariant forall xj :: xj in done && xj !in a ==> |Incompatible(gr.constraint, xi, vi, xj, gr.domain[xj])| != |gr.domain[xj]|
      decreases todo
    {
      var xj :| xj in todo;
      if xj !in a {
        var removed := Rejected(gr.constraint, xi, vi, xj, gr.domain[xj]);
        reduction := reduction[xj := removed];
        if |removed| == |gr.domain[xj]| {
          return None;
        }
      }
      todo := todo - {xj};
      done := done + {xj};
    }
    return Some(reduction);
  }

  /** csp.py lines 136-138: the values of dj, in order, that reject xi = vi, appended one at a time. */
  method Rejected<V, D>(constraint: ((V, D), (V, D)) -> bool, xi: V, vi: D, xj: V, dj: seq<D>) returns (removed: seq<D>)
    ensures removed == Incompatible(constraint, xi, vi, xj, dj)
  {
    removed := [];
    for k := 0 to |dj|
      invariant removed == Incompatible(constraint, xi, vi, xj, dj[..k])
    {
      assert dj[..k + 1][..k] == dj[..k];
      if !constraint((xi, vi), (xj, dj[k])) {
        removed := removed + [dj[k]];
      }
    }
    assert dj[..|dj|] == dj;
  }

  /**
   * consistencia: dispatch on the level. Level 2 (arc consistency) raises
   * NotImplementedError; any other level falls through to None.
   */
  method Consistency<V, D>(gr: ConstraintGraph<V, D>, a: map<V, D>, xi: V, vi: D, level: int)
    returns (r: Result<Option<map<V, seq<D>>>>)
    requires gr.Valid() && xi in gr.domain
    ensures r.NotImplemented? <==> level == 2
    ensures level == 0 ==> r.Ok? && (r.value.None? <==> ClashesWithAssigned(gr.constraint, gr.neighbors, a, xi, vi))
    ensures level == 0 && r.Ok? && r.value.Some? ==> r.value.value == map[]
    ensures level == 1 ==> r.Ok? && (r.value.None? <==> Wipeout(gr.constraint, gr.neighbors, gr.domain, a, xi, vi))
    ensures level == 1 && r.Ok? && r.value.Some? ==> r.value.value == ForwardReduction(gr.constraint, gr.neighbors, gr.domain, a, xi, vi)
    ensures level != 0 && level != 1 && level != 2 ==> r == Ok(None)
  {
    if level == 0 {
      var c := CheckAssigned(gr, a, xi, vi);
      r := Ok(c);
    } else if level == 1 {
      var c := ForwardCheck(gr, a, xi, vi);
      r := Ok(c);
    } else if level == 2 {
      r := NotImplemented;
    } else {
      r := Ok(None);
    }
  }

  /** A forward-checking reduction only removes values the neighbour's list holds. */
  lemma ForwardReductionWithin<V, D>(constraint: ((V, D), (V, D)) -> bool, neighbors: map<V, set<V>>,
                                     domain: map<V, seq<D>>, a: map<V, D>, xi: V, vi: D)
    requires WellFormed(domain, neighbors) && xi in domain
    ensures forall xj :: xj in ForwardReduction(constraint, neighbors, domain, a, xi, vi) ==>
              xj in domain && multiset(ForwardReduction(constraint, neighbors, domain, a, xi, vi)[xj]) <= multiset(domain[xj])
  {
    forall xj | xj in ForwardReduction(constraint, neighbors, domain, a, xi, vi)
      ensures multiset(Incompatible(constraint, xi, vi, xj, domain[xj])) <= multiset(domain[xj])
    {
      IncompatibleWithin(constraint, xi, vi, xj, domain[xj]);
    }
  }

  /** Wipe-out means some unassigned neighbour has no value compatible with xi = vi. */
  lemma WipeoutMeansNoSupport<V, D>(constraint: ((V, D), (V, D)) -> bool, neighbors: map<V, set<V>>,
                                    domain: map<V, seq<D>>, a: map<V, D>, xi: V, vi: D)
    requires WellFormed(domain, neighbors) && xi in domain
    ensures Wipeout(constraint, neighbors, domain, a, xi, vi)
        <==> exists xj :: xj in neighbors[xi] && xj !in a && forall w :: w in domain[xj] ==> !constraint((xi, vi), (xj, w))
  {
    forall xj | xj in neighbors[xi] && xj !in a
      ensures |Incompatible(constraint, xi, vi, xj, domain[xj])| == |domain[xj]|
          <==> forall w :: w in domain[xj] ==> !constraint((xi, vi), (xj, w))
    {
      WipeoutIffAllRejected(constraint, xi, vi, xj, domain[xj]);
    }
  }

  // ---------------------------------------------------------------------------
  // Applying and undoing a reduction

  /** Every listed value occurs in its variable's list, as often as it is listed. */
  ghost predicate Within<V, D>(reduction: map<V, seq<D>>, d: map<V, seq<D>>) {
    forall x :: x in reduction ==> x in d && multiset(reduction[x]) <= multiset(d[x])
  }

  /** e is d with one occurrence taken out per listed value, and nothing else changed. */
  ghost predicate Pruned<V, D>(d: map<V, seq<D>>, e: map<V, seq<D>>, reduction: map<V, seq<D>>) {
    && e.Keys == d.Keys
    && (forall x :: x in reduction ==> x in d && multiset(e[x]) == multiset(d[x]) - multiset(reduction[x]))
    && (forall x :: x in d && x !in reduction ==> e[x] == d[x])
  }

  /** e is d with the listed values appended to their variables' lists, and nothing else changed. */
  ghost predicate Restored<V, D>(d: map<V, seq<D>>, e: map<V, seq<D>>, reduction: map<V, seq<D>>) {
    && e.Keys == d.Keys
    && (forall x :: x in reduction ==> x in d && e[x] == d[x] + reduction[x])
    && (forall x :: x in d && x !in reduction ==> e[x] == d[x])
  }

  /** csp.py lines 85-87: remove every listed value from its variable's domain. */
  method RemoveReduction<V, D>(gr: ConstraintGraph<V, D>, reduction: map<V, seq<D>>)
    requires Within(reduction, gr.domain)
    modifies gr`domain
    ensures Pruned(old(gr.domain), gr.domain, reduction)
  {
    var todo := reduction.Keys;
    while todo != {}
      invariant todo <= reduction.Keys && gr.domain.Keys == old(gr.domain.Keys)
      invariant forall x :: x in reduction && x !in todo ==> multiset(gr.domain[x]) == multiset(old(gr.domain[x])) - multiset(reduction[x])
      invariant forall x :: x in gr.domain && (x !in reduction || x in todo) ==> gr.domain[x] == old(gr.domain[x])
      decreases todo
    {
      var x :| x in todo;
      RemoveValues(gr, x, reduction[x]);
      todo := todo - {x};
    }
  }

  /** The inner loop of csp.py lines 86-87: remove the listed values of one variable, one occurrence each. */
  method RemoveValues<V, D>(gr: ConstraintGraph<V, D>, x: V, values: seq<D>)
    requires x in gr.domain && multiset(values) <= multiset(gr.domain[x])
    modifies gr`domain
    ensures gr.domain.Keys == old(gr.domain.Keys)
    ensures multiset(gr.domain[x]) == multiset(old(gr.domain[x])) - multiset(values)
    ensures forall y :: y in gr.domain && y != x ==> gr.domain[y] == old(gr.domain[y])
  {
    ghost var d0 := gr.domain;
    var rest := values;
    while rest != []
      invariant x in gr.domain && gr.domain == d0[x := gr.domain[x]]
      invariant multiset(rest) <= multiset(gr.domain[x])
      invariant multiset(gr.domain[x]) - multiset(rest) == multiset(d0[x]) - multiset(values)
      decreases |rest|
    {
      RemoveStep(gr.domain[x], rest, multiset(d0[x]) - multiset(values));
      gr.domain := gr.domain[x := RemoveFirst(gr.domain[x], rest[0])];
      rest := rest[1..];
    }
  }

  /** One removal of the loop above keeps its invariant: what is left to remove is still there, and the target is unchanged. */
  lemma RemoveStep<D>(dx: seq<D>, rest: seq<D>, target: multiset<D>)
    requires rest != [] && multiset(rest) <= multiset(dx) && multiset(dx) - multiset(rest) == target
    ensures rest[0] in dx
    ensures multiset(rest[1..]) <= multiset(RemoveFirst(dx, rest[0]))
    ensures multiset(RemoveFirst(dx, rest[0])) - multiset(rest[1..]) == target
  {
    var v, tail := rest[0], rest[1..];
    assert rest == [v] + tail;
    assert multiset(tail) == multiset(rest) - multiset{v};
    assert v in multiset(dx);
    CancelOne(multiset(dx), multiset(rest), v);
  }

  /** Taking one occurrence of v out of both sides changes neither inclusion nor difference. */
  lemma CancelOne<D>(a: multiset<D>, r: multiset<D>, v: D)
    requires v in r && r <= a
    ensures r - multiset{v} <= a - multiset{v}
    ensures (a - multiset{v}) - (r - multiset{v}) == a - r
  {
    forall w ensures ((a - multiset{v}) - (r - multiset{v}))[w] == (a - r)[w] {
      assert r[w] <= a[w];
    }
  }

  /** csp.py lines 95-96: append every listed value back to its variable's domain. */
  method RestoreReduction<V, D>(gr: ConstraintGraph<V, D>, reduction: map<V, seq<D>>)
    requires reduction.Keys <= gr.domain.Keys
    modifies gr`domain
    ensures Restored(old(gr.domain), gr.domain, reduction)
  {
    var todo := reduction.Keys;
    while todo != {}
      invariant todo <= reduction.Keys && gr.domain.Keys == old(gr.domain.Keys)
      invariant forall x :: x in reduction && x !in todo ==> gr.domain[x] == old(gr.domain[x]) + reduction[x]
      invariant forall x :: x in gr.domain && (x !in reduction || x in todo) ==> gr.domain[x] == old(gr.domain[x])
      decreases todo
    {
      var x :| x in todo;
      gr.domain := gr.domain[x := gr.domain[x] + reduction[x]];
      todo := todo - {x};
    }
  }

  // ---------------------------------------------------------------------------
  // Soundness steps

  /** Equal contents per variable carry the forward-checking invariant over. */
  lemma ForwardCheckedSameContents<V, D>(constraint: ((V, D), (V, D)) -> bool, neighbors: map<V, set<V>>,
                                         d: map<V, seq<D>>, e: map<V, seq<D>>, a: map<V, D>)
    requires SameContents(d, e) && ForwardChecked(constraint, neighbors, d, a)
    ensures ForwardChecked(constraint, neighbors, e, a)
  {
    forall x, y, w | x in a && x in neighbors && y in neighbors[x] && y !in a && y in e && w in e[y]
      ensures constraint((x, a[x]), (y, w))
    {
      assert w in multiset(e[y]);
      assert w in d[y];
    }
  }

  /** A level-0 step that found no clash keeps the assignment consistent. */
  lemma CheckedStepConsistent<V(!new), D(!new)>(constraint: ((V, D), (V, D)) -> bool, neighbors: map<V, set<V>>,
                                    a: map<V, D>, x: V, v: D)
    requires SymmetricInstance(constraint, neighbors) && Consistent(constraint, neighbors, a)
    requires x in neighbors && x !in a && !ClashesWithAssigned(constraint, neighbors, a, x, v)
    ensures Consistent(constraint, neighbors, a[x := v])
  {
    var b := a[x := v];
    forall p, q | p in b && q in b && p in neighbors && q in neighbors[p]
      ensures constraint((p, b[p]), (q, b[q]))
    {
      if p == x {
        assert q != x && q in a;
      } else if q == x {
        assert p in neighbors[x];
        assert constraint((x, v), (p, a[p]));
      }
    }
  }

  /**
   * A level-1 step with value v taken from x's domain, followed by removal
   * of its reduction, keeps the assignment consistent and forward-checked.
   */
  lemma ForwardStepSound<V(!new), D(!new)>(constraint: ((V, D), (V, D)) -> bool, neighbors: map<V, set<V>>,
                               d: map<V, seq<D>>, pruned: map<V, seq<D>>, a: map<V, D>, x: V, v: D)
    requires SymmetricInstance(constraint, neighbors) && WellFormed(d, neighbors)
    requires Consistent(constraint, neighbors, a) && ForwardChecked(constraint, neighbors, d, a)
    requires x in d && x !in a && v in d[x]
    requires Pruned(d, pruned, ForwardReduction(constraint, neighbors, d, a, x, v))
    ensures Consistent(constraint, neighbors, a[x := v])
    ensures ForwardChecked(constraint, neighbors, pruned, a[x := v])
  {
    var b := a[x := v];
    var red := ForwardReduction(constraint, neighbors, d, a, x, v);
    forall p, q | p in b && q in b && p in neighbors && q in neighbors[p]
      ensures constraint((p, b[p]), (q, b[q]))
    {
      if p == x {
        assert q != x && q in a && x in neighbors[q];
        assert constraint((q, a[q]), (x, v));
      } else if q == x {
        assert constraint((p, a[p]), (x, v));
      }
    }
    forall p, q, w | p in b && p in neighbors && q in neighbors[p] && q !in b && q in pruned && w in pruned[q]
      ensures constraint((p, b[p]), (q, w))
    {
      if q in red {
        assert multiset(pruned[q]) == multiset(d[q]) - multiset(Incompatible(constraint, x, v, q, d[q]));
        SurvivorsAccepted(constraint, x, v, q, d[q], pruned[q], w);
        if p != x {
          assert constraint((p, a[p]), (q, w));
        }
      } else {
        assert p != x;
        assert w in d[q];
      }
    }
  }

  /** Undoing a removal after a search that preserved contents restores the contents. */
  lemma RestoreContents<V, D>(d0: map<V, seq<D>>, pruned: map<V, seq<D>>, after: map<V, seq<D>>,
                              restored: map<V, seq<D>>, reduction: map<V, seq<D>>)
    requires Within(reduction, d0) && Pruned(d0, pruned, reduction)
    requires SameContents(after, pruned) && Restored(after, restored, reduction)
    ensures SameContents(restored, d0)
  {
    forall x | x in restored ensures multiset(restored[x]) == multiset(d0[x]) {
      if x in reduction {
        assert multiset(restored[x]) == multiset(after[x]) + multiset(reduction[x]);
      }
    }
  }

  /** Pruning only takes values away. */
  lemma PrunedWithin<V, D>(d: map<V, seq<D>>, e: map<V, seq<D>>, reduction: map<V, seq<D>>, y: V, w: D)
    requires Pruned(d, e, reduction) && y in e && w in e[y]
    ensures w in d[y]
  {
    assert w in multiset(e[y]);
  }

  /** Assigning one more unassigned variable shrinks the set of unassigned ones. */
  lemma UnassignedShrinks<V>(vars: set<V>, done: set<V>, x: V)
    requires x in vars && x !in done
    ensures vars - (done + {x}) < vars - done
  {
    assert x in vars - done && x !in vars - (done + {x});
  }

  /** Unassigning a variable that was just assigned gives back the assignment before. */
  lemma UndoAssign<V, D>(a: map<V, D>, x: V, v: D)
    requires x !in a
    ensures a[x := v] - {x} == a
  {
  }

  /** Well-formedness depends only on which variables have domains. */
  lemma WellFormedSameKeys<V, D>(d: map<V, seq<D>>, e: map<V, seq<D>>, neighbors: map<V, set<V>>)
    requires WellFormed(d, neighbors) && d.Keys == e.Keys
    ensures WellFormed(e, neighbors)
  {
  }

  /** The soundness premise survives one committed step, at either level, whatever list order pruning leaves. */
  lemma StepSound<V(!new), D(!new)>(constraint: ((V, D), (V, D)) -> bool, neighbors: map<V, set<V>>,
                                    d: map<V, seq<D>>, a: map<V, D>, x: V, v: D,
                                    level: int, reduction: map<V, seq<D>>)
    requires WellFormed(d, neighbors) && x in d && x !in a && v in d[x]
    requires SoundStart(constraint, neighbors, d, a, level)
    requires level == 0 ==> !ClashesWithAssigned(constraint, neighbors, a, x, v) && reduction == map[]
    requires level == 1 ==> reduction == ForwardReduction(constraint, neighbors, d, a, x, v)
    ensures forall pruned :: Pruned(d, pruned, reduction) ==> SoundStart(constraint, neighbors, pruned, a[x := v], level)
  {
    forall pruned | Pruned(d, pruned, reduction) ensures SoundStart(constraint, neighbors, pruned, a[x := v], level) {
      if level == 0 {
        CheckedStepConsistent(constraint, neighbors, a, x, v);
      } else {
        ForwardStepSound(constraint, neighbors, d, pruned, a, x, v);
      }
    }
  }

  // ---------------------------------------------------------------------------
  // Completeness steps

  /**
   * s is a solution reachable from a: it covers every variable, keeps the
   * pairs of a, draws every other value from the candidates d, and
   * satisfies every constraint.
   */
  ghost predicate IsCompletion<V, D>(constraint: ((V, D), (V, D)) -> bool, neighbors: map<V, set<V>>,
                                     d: map<V, seq<D>>, a: map<V, D>, s: map<V, D>) {
    && s.Keys == d.Keys
    && Extends(s, a)
    && (forall y :: y in s && y !in a ==> s[y] in d[y])
    && Consistent(constraint, neighbors, s)
  }

  ghost predicate HasCompletion<V(!new), D(!new)>(constraint: ((V, D), (V, D)) -> bool, neighbors: map<V, set<V>>,
                                      d: map<V, seq<D>>, a: map<V, D>) {
    exists s :: IsCompletion(constraint, neighbors, d, a, s)
  }

  /** Whether a completion exists depends only on the contents of the candidate lists. */
  lemma CompletionSameContents<V(!new), D(!new)>(constraint: ((V, D), (V, D)) -> bool, neighbors: map<V, set<V>>,
                                     d: map<V, seq<D>>, e: map<V, seq<D>>, a: map<V, D>)
    requires SameContents(d, e)
    ensures HasCompletion(constraint, neighbors, d, a) ==> HasCompletion(constraint, neighbors, e, a)
  {
    if HasCompletion(constraint, neighbors, d, a) {
      var s :| IsCompletion(constraint, neighbors, d, a, s);
      forall y | y in s && y !in a ensures s[y] in e[y] {
        assert s[y] in multiset(d[y]);
      }
      assert IsCompletion(constraint, neighbors, e, a, s);
    }
  }

  /** A completion with x = v never clashes with an assigned neighbour, so a level-0 None rules x = v out. */
  lemma CompletionAvoidsClash<V(!new), D(!new)>(constraint: ((V, D), (V, D)) -> bool, neighbors: map<V, set<V>>,
                                                d: map<V, seq<D>>, a: map<V, D>, x: V, v: D)
    requires WellFormed(d, neighbors) && x in d && x !in a
    ensures HasCompletion(constraint, neighbors, d, a[x := v]) ==> !ClashesWithAssigned(constraint, neighbors, a, x, v)
  {
    if HasCompletion(constraint, neighbors, d, a[x := v]) {
      var s :| IsCompletion(constraint, neighbors, d, a[x := v], s);
      forall xj | xj in a && xj in neighbors[x] ensures constraint((x, v), (xj, a[xj])) {
        assert s[x] == v && s[xj] == a[xj];
      }
    }
  }

  /** A completion with x = v leaves every unassigned neighbour a compatible value, so a level-1 None rules x = v out. */
  lemma CompletionAvoidsWipeout<V(!new), D(!new)>(constraint: ((V, D), (V, D)) -> bool, neighbors: map<V, set<V>>,
                                                  d: map<V, seq<D>>, a: map<V, D>, x: V, v: D)
    requires WellFormed(d, neighbors) && x in d && x !in a && v in d[x]
    ensures HasCompletion(constraint, neighbors, d, a[x := v]) ==> !Wipeout(constraint, neighbors, d, a, x, v)
  {
    WipeoutMeansNoSupport(constraint, neighbors, d, a, x, v);
    if HasCompletion(constraint, neighbors, d, a[x := v]) {
      var s :| IsCompletion(constraint, neighbors, d, a[x := v], s);
      forall xj | xj in neighbors[x] && xj !in a ensures exists w :: w in d[xj] && constraint((x, v), (xj, w)) {
        var w := s[xj];
        assert w in d[xj] && constraint((x, s[x]), (xj, w));
      }
    }
  }

  /**
   * Pruning by the step's own reduction loses no completion that assigns
   * x = v: at level 0 nothing is pruned, at level 1 only values rejected by
   * x = v are.
   */
  lemma PrunedKeepsCompletion<V(!new), D(!new)>(constraint: ((V, D), (V, D)) -> bool, neighbors: map<V, set<V>>,
                                    d: map<V, seq<D>>, pruned: map<V, seq<D>>, a: map<V, D>, x: V, v: D,
                                    level: int, reduction: map<V, seq<D>>)
    requires WellFormed(d, neighbors) && x in d && x !in a
    requires level == 0 ==> reduction == map[]
    requires level == 1 ==> reduction == ForwardReduction(constraint, neighbors, d, a, x, v)
    requires (level == 0 || level == 1) && Pruned(d, pruned, reduction)
    ensures HasCompletion(constraint, neighbors, d, a[x := v]) ==> HasCompletion(constraint, neighbors, pruned, a[x := v])
  {
    if HasCompletion(constraint, neighbors, d, a[x := v]) {
      var s :| IsCompletion(constraint, neighbors, d, a[x := v], s);
      forall y | y in s && y !in a[x := v] ensures s[y] in pruned[y] {
        if y in reduction {
          assert level == 1 && y in neighbors[x] && y != x && y !in a;
          assert constraint((x, s[x]), (y, s[y]));
          SurvivorsAccepted(constraint, x, v, y, d[y], pruned[y], s[y]);
        }
      }
      assert IsCompletion(constraint, neighbors, pruned, a[x := v], s);
    }
  }

  /**
   * Every completion gives x one of its candidates, so if a completion
   * exists, one exists with x set to some value of any permutation of them.
   */
  lemma CompletionPicksValue<V(!new), D(!new)>(constraint: ((V, D), (V, D)) -> bool, neighbors: map<V, set<V>>,
                                               d: map<V, seq<D>>, a: map<V, D>, x: V, values: seq<D>)
    requires x in d && x !in a && multiset(values) == multiset(d[x])
    ensures HasCompletion(constraint, neighbors, d, a) ==>
              exists k :: 0 <= k < |values| && HasCompletion(constraint, neighbors, d, a[x := values[k]])
  {
    if HasCompletion(constraint, neighbors, d, a) {
      var s :| IsCompletion(constraint, neighbors, d, a, s);
      assert s[x] in multiset(values);
      var k :| 0 <= k < |values| && values[k] == s[x];
      assert IsCompletion(constraint, neighbors, d, a[x := values[k]], s);
    }
  }

  // ---------------------------------------------------------------------------
  // Search

  /**
   * asignacion_grafo_restriccion: depth-first search for a complete
   * assignment extending ap. Every return leaves each domain with the
   * contents it had on entry; a failure leaves ap as it was and counts one
   * more exhausted frame; a success returns ap's final contents, which cover
   * every variable, extend ap with values drawn from the domains, and, from a
   * sound start, satisfy every constraint. At level 2 the first consistency
   * call raises, before anything has changed.
   */
  method Search<V(!new), D(!new)>(gr: ConstraintGraph<V, D>, ap: Assignment<V, D>, level: int)
    returns (result: Result<Option<map<V, D>>>)
    requires gr.Valid() && ap.pairs.Keys <= gr.domain.Keys
    modifies gr, ap
    ensures gr.Valid() && gr.neighbors == old(gr.neighbors)
    ensures SameContents(gr.domain, old(gr.domain))
    ensures gr.backtracking >= old(gr.backtracking)
    ensures old(ap.pairs).Keys == gr.domain.Keys ==> result == Ok(Some(old(ap.pairs)))
    ensures result.Ok? && result.value.Some? ==> result.value.value.Keys == gr.domain.Keys && ap.pairs == result.value.value
    ensures result.Ok? && result.value.Some? ==> Extends(result.value.value, old(ap.pairs))
    ensures result.Ok? && result.value.Some? ==>
              forall y :: y in result.value.value && y !in old(ap.pairs) ==> result.value.value[y] in old(gr.domain)[y]
    ensures result == Ok(None) ==> ap.pairs == old(ap.pairs) && gr.backtracking > old(gr.backtracking)
    ensures result.Ok? && result.value.Some? && old(SoundStart(gr.constraint, gr.neighbors, gr.domain, ap.pairs, level)) ==>
              Consistent(gr.constraint, gr.neighbors, result.value.value)
    ensures result.NotImplemented? ==>
              level == 2 && gr.domain == old(gr.domain) && ap.pairs == old(ap.pairs) && gr.backtracking == old(gr.backtracking)
    ensures level != 2 ==> result.Ok?
    ensures level != 0 && level != 1 && level != 2 && old(ap.pairs).Keys != gr.domain.Keys ==> result == Ok(None)
    ensures level == 2 && old(ap.pairs).Keys != gr.domain.Keys && (forall y :: y in gr.domain ==> gr.domain[y] != []) ==>
              result.NotImplemented?
    ensures result == Ok(None) && (level == 0 || level == 1) ==>
              !HasCompletion(gr.constraint, gr.neighbors, old(gr.domain), old(ap.pairs))
    decreases gr.domain.Keys - ap.pairs.Keys, 4
  {
    if ap.pairs.Keys == gr.domain.Keys {
      return Ok(Some(ap.pairs));
    }
    var x := SelectVariable(gr, ap.pairs);
    var values := OrderValues(gr, ap.pairs, x);
    forall k | 0 <= k < |values| ensures values[k] in gr.domain[x] {
      assert values[k] in multiset(values);
    }
    assert level == 2 && (forall y :: y in gr.domain ==> gr.domain[y] != []) ==> values != [];
    ghost var d0, a0 := gr.domain, ap.pairs;
    result := TryValues(gr, ap, x, values, level);
    if result == Ok(None) {
      CompletionPicksValue(gr.constraint, gr.neighbors, d0, a0, x, values);
      gr.backtracking := gr.backtracking + 1;
    }
  }

  /** csp.py lines 80-102: try the ordered values of x in turn until one leads to a complete assignment. */
  method TryValues<V(!new), D(!new)>(gr: ConstraintGraph<V, D>, ap: Assignment<V, D>, x: V, values: seq<D>, level: int)
    returns (result: Result<Option<map<V, D>>>)
    requires gr.Valid() && ap.pairs.Keys <= gr.domain.Keys
    requires x in gr.domain && x !in ap.pairs && forall k :: 0 <= k < |values| ==> values[k] in gr.domain[x]
    modifies gr, ap
    ensures gr.Valid() && gr.neighbors == old(gr.neighbors)
    ensures SameContents(gr.domain, old(gr.domain))
    ensures gr.backtracking >= old(gr.backtracking)
    ensures result.Ok? && result.value.Some? ==> result.value.value.Keys == gr.domain.Keys && ap.pairs == result.value.value
    ensures result.Ok? && result.value.Some? ==> Extends(result.value.value, old(ap.pairs))
    ensures result.Ok? && result.value.Some? ==>
              forall y :: y in result.value.value && y !in old(ap.pairs) ==> result.value.value[y] in old(gr.domain)[y]
    ensures result == Ok(None) ==> ap.pairs == old(ap.pairs)
    ensures result.Ok? && result.value.Some? && old(SoundStart(gr.constraint, gr.neighbors, gr.domain, ap.pairs, level)) ==>
              Consistent(gr.constraint, gr.neighbors, result.value.value)
    ensures result.NotImplemented? <==> level == 2 && values != []
    ensures result.NotImplemented? ==>
              gr.domain == old(gr.domain) && ap.pairs == old(ap.pairs) && gr.backtracking == old(gr.backtracking)
    ensures level != 0 && level != 1 ==> result.NotImplemented? || result.value.None?
    ensures result == Ok(None) && (level == 0 || level == 1) ==>
              forall k :: 0 <= k < |values| ==> !HasCompletion(gr.constraint, gr.neighbors, old(gr.domain), old(ap.pairs)[x := values[k]])
    decreases gr.domain.Keys - ap.pairs.Keys, 3
  {
    ghost var d0 := gr.domain;
    ghost var sound := SoundStart(gr.constraint, gr.neighbors, gr.domain, ap.pairs, level);
    for i := 0 to |values|
      invariant gr.Valid() && gr.neighbors == old(gr.neighbors) && SameContents(gr.domain, d0)
      invariant ap.pairs == old(ap.pairs)
      invariant gr.backtracking >= old(gr.backtracking)
      invariant level == 2 ==> i == 0
      invariant i == 0 ==> gr.domain == d0 && gr.backtracking == old(gr.backtracking)
      invariant (level == 0 || level == 1) ==>
                  forall k :: 0 <= k < i ==> !HasCompletion(gr.constraint, gr.neighbors, d0, ap.pairs[x := values[k]])
    {
      var v := values[i];
      assert v in multiset(d0[x]) && v in multiset(gr.domain[x]);
      if sound && level == 1 {
        ForwardCheckedSameContents(gr.constraint, gr.neighbors, d0, gr.domain, ap.pairs);
      }
      result := TryValue(gr, ap, x, v, level, d0);
      if result.NotImplemented? || result.value.Some? {
        return;
      }
    }
    return Ok(None);
  }

  /**
   * csp.py lines 82-84 for one candidate value v of x: ask the consistency level
   * for a reduction and, when there is one, commit to x = v.
   */
  method TryValue<V(!new), D(!new)>(gr: ConstraintGraph<V, D>, ap: Assignment<V, D>, x: V, v: D, level: int,
                                   ghost base: map<V, seq<D>>)
    returns (result: Result<Option<map<V, D>>>)
    requires gr.Valid() && ap.pairs.Keys <= gr.domain.Keys && SameContents(gr.domain, base)
    requires x in gr.domain && x !in ap.pairs && v in gr.domain[x]
    modifies gr, ap
    ensures gr.Valid() && gr.neighbors == old(gr.neighbors)
    ensures SameContents(gr.domain, old(gr.domain))
    ensures gr.backtracking >= old(gr.backtracking)
    ensures result.Ok? && result.value.Some? ==> result.value.value.Keys == gr.domain.Keys && ap.pairs == result.value.value
    ensures result.Ok? && result.value.Some? ==> Extends(result.value.value, old(ap.pairs)[x := v])
    ensures result.Ok? && result.value.Some? ==>
              forall y :: y in result.value.value && y !in old(ap.pairs) ==> result.value.value[y] in base[y]
    ensures result == Ok(None) ==> ap.pairs == old(ap.pairs)
    ensures result.Ok? && result.value.Some? && old(SoundStart(gr.constraint, gr.neighbors, gr.domain, ap.pairs, level)) ==>
              Consistent(gr.constraint, gr.neighbors, result.value.value)
    ensures result.NotImplemented? <==> level == 2
    ensures result.NotImplemented? ==>
              gr.domain == old(gr.domain) && ap.pairs == old(ap.pairs) && gr.backtracking == old(gr.backtracking)
    ensures level != 0 && level != 1 && level != 2 ==> result == Ok(None)
    ensures result == Ok(None) && (level == 0 || level == 1) ==>
              !HasCompletion(gr.constraint, gr.neighbors, base, old(ap.pairs)[x := v])
    decreases gr.domain.Keys - ap.pairs.Keys, 2
  {
    ghost var sound := SoundStart(gr.constraint, gr.neighbors, gr.domain, ap.pairs, level);
    var reduction := Consistency(gr, ap.pairs, x, v, level);
    if reduction.NotImplemented? {
      return NotImplemented;
    }
    if reduction.value.None? {
      if level == 0 {
        CompletionAvoidsClash(gr.constraint, gr.neighbors, gr.domain, ap.pairs, x, v);
      } else if level == 1 {
        CompletionAvoidsWipeout(gr.constraint, gr.neighbors, gr.domain, ap.pairs, x, v);
      }
      CompletionSameContents(gr.constraint, gr.neighbors, base, gr.domain, ap.pairs[x := v]);
      return Ok(None);
    }
    var red := reduction.value.value;
    if level == 1 {
      ForwardReductionWithin(gr.constraint, gr.neighbors, gr.domain, ap.pairs, x, v);
    }
    if sound {
      StepSound(gr.constraint, gr.neighbors, gr.domain, ap.pairs, x, v, level, red);
    }
    ghost var d0, a0 := gr.domain, ap.pairs;
    var found, pruned := Descend(gr, ap, x, v, level, red, sound);
    if found.None? {
      PrunedKeepsCompletion(gr.constraint, gr.neighbors, d0, pruned, a0, x, v, level, red);
      CompletionSameContents(gr.constraint, gr.neighbors, base, d0, a0[x := v]);
    } else {
      forall y | y in found.value && y !in a0 ensures found.value[y] in base[y] {
        assert found.value[y] in multiset(d0[y]);
      }
    }
    result := Ok(found);
  }

  /**
   * csp.py lines 85-100: remove the reduction, assign x = v and search deeper, put
   * the reduction back, and on failure unassign x.
   */
  method Descend<V(!new), D(!new)>(gr: ConstraintGraph<V, D>, ap: Assignment<V, D>, x: V, v: D, level: int,
                                   red: map<V, seq<D>>, ghost sound: bool)
    returns (result: Option<map<V, D>>, ghost pruned: map<V, seq<D>>)
    requires gr.Valid() && ap.pairs.Keys <= gr.domain.Keys && (level == 0 || level == 1)
    requires x in gr.domain && x !in ap.pairs && Within(red, gr.domain)
    requires sound ==> forall pruned :: Pruned(gr.domain, pruned, red) ==>
               SoundStart(gr.constraint, gr.neighbors, pruned, ap.pairs[x := v], level)
    modifies gr, ap
    ensures gr.Valid() && gr.neighbors == old(gr.neighbors)
    ensures SameContents(gr.domain, old(gr.domain))
    ensures gr.backtracking >= old(gr.backtracking)
    ensures result.Some? ==> result.value.Keys == gr.domain.Keys && ap.pairs == result.value
    ensures result.Some? ==> Extends(result.value, old(ap.pairs)[x := v])
    ensures result.Some? ==> forall y :: y in result.value && y !in old(ap.pairs) && y != x ==> result.value[y] in old(gr.domain)[y]
    ensures result.None? ==> ap.pairs == old(ap.pairs)
    ensures Pruned(old(gr.domain), pruned, red)
    ensures result.None? ==> !HasCompletion(gr.constraint, gr.neighbors, pruned, old(ap.pairs)[x := v])
    ensures result.Some? && sound ==> Consistent(gr.constraint, gr.neighbors, result.value)
    decreases gr.domain.Keys - ap.pairs.Keys, 1
  {
    ghost var d0 := gr.domain;
    ghost var a0 := ap.pairs;
    RemoveReduction(gr, red);
    pruned := gr.domain;
    WellFormedSameKeys(d0, pruned, gr.neighbors);
    result := Recurse(gr, ap, x, v, level, sound);
    ghost var after := gr.domain;
    RestoreReduction(gr, red);
    RestoreContents(d0, pruned, after, gr.domain, red);
    WellFormedSameKeys(after, gr.domain, gr.neighbors);
    if result.Some? {
      forall y | y in result.value && y !in a0 && y != x ensures result.value[y] in d0[y] {
        PrunedWithin(d0, pruned, red, y, result.value[y]);
      }
      return;
    }
    UndoAssign(a0, x, v);
    ap.pairs := ap.pairs - {x};
  }

  /** csp.py lines 88-93: assign x = v and search for a completion. */
  method Recurse<V(!new), D(!new)>(gr: ConstraintGraph<V, D>, ap: Assignment<V, D>, x: V, v: D, level: int,
                                   ghost sound: bool)
    returns (result: Option<map<V, D>>)
    requires gr.Valid() && ap.pairs.Keys <= gr.domain.Keys && (level == 0 || level == 1)
    requires x in gr.domain && x !in ap.pairs
    requires sound ==> SoundStart(gr.constraint, gr.neighbors, gr.domain, ap.pairs[x := v], level)
    modifies gr, ap
    ensures gr.Valid() && gr.neighbors == old(gr.neighbors)
    ensures SameContents(gr.domain, old(gr.domain))
    ensures gr.backtracking >= old(gr.backtracking)
    ensures result.Some? ==> result.value.Keys == gr.domain.Keys && ap.pairs == result.value
    ensures result.Some? ==> Extends(result.value, old(ap.pairs)[x := v])
    ensures result.Some? ==> forall y :: y in result.value && y !in old(ap.pairs) && y != x ==> result.value[y] in old(gr.domain)[y]
    ensures result.None? ==> ap.pairs == old(ap.pairs)[x := v]
    ensures result.None? ==> !HasCompletion(gr.constraint, gr.neighbors, old(gr.domain), old(ap.pairs)[x := v])
    ensures result.Some? && sound ==> Consistent(gr.constraint, gr.neighbors, result.value)
    decreases gr.domain.Keys - ap.pairs.Keys, 0
  {
    ghost var a0 := ap.pairs;
    ap.pairs := ap.pairs[x := v];
    UnassignedShrinks(gr.domain.Keys, a0.Keys, x);
    var r := Search(gr, ap, level);
    result := r.value;
  }

  /** An empty partial assignment is a sound start for a symmetric instance at levels 0 and 1. */
  lemma EmptyStartSound<V(!new), D(!new)>(constraint: ((V, D), (V, D)) -> bool, neighbors: map<V, set<V>>,
                                          domain: map<V, seq<D>>, level: int)
    requires SymmetricInstance(constraint, neighbors) && (level == 0 || level == 1)
    ensures SoundStart(constraint, neighbors, domain, map[], level)
  {
  }

  /**
   * A top-level call with the default empty ap (a fresh dictionary here):
   * a returned assignment covers every variable with values from the
   * domains and, on a symmetric instance at level 0 or 1, satisfies every
   * constraint; the domains end with the contents they started with.
   */
  method Solve<V(!new), D(!new)>(gr: ConstraintGraph<V, D>, level: int) returns (r: Result<Option<map<V, D>>>)
    requires gr.Valid()
    modifies gr
    ensures gr.Valid() && gr.neighbors == old(gr.neighbors) && SameContents(gr.domain, old(gr.domain))
    ensures r.Ok? && r.value.Some? ==>
              r.value.value.Keys == gr.domain.Keys && forall y :: y in r.value.value ==> r.value.value[y] in old(gr.domain)[y]
    ensures r.Ok? && r.value.Some? && (level == 0 || level == 1) && SymmetricInstance(gr.constraint, gr.neighbors) ==>
              Consistent(gr.constraint, gr.neighbors, r.value.value)
    ensures r.Ok? && r.value.Some? && (level == 0 || level == 1) && SymmetricInstance(gr.constraint, gr.neighbors) ==>
              IsCompletion(gr.constraint, gr.neighbors, old(gr.domain), map[], r.value.value)
    ensures r == Ok(None) && (level == 0 || level == 1) ==> !HasCompletion(gr.constraint, gr.neighbors, old(gr.domain), map[])
    ensures r == Ok(None) ==> gr.backtracking > old(gr.backtracking)
    ensures r.NotImplemented? ==> level == 2
    ensures level != 2 ==> r.Ok?
    ensures level != 0 && level != 1 && level != 2 && gr.domain != map[] ==> r == Ok(None)
    ensures level == 2 && gr.domain != map[] && (forall y :: y in gr.domain ==> gr.domain[y] != []) ==> r.NotImplemented?
    ensures old(gr.domain) == map[] ==> r == Ok(Some(map[]))
  {
    var ap := new Assignment();
    if (level == 0 || level == 1) && SymmetricInstance(gr.constraint, gr.neighbors) {
      EmptyStartSound(gr.constraint, gr.neighbors, gr.domain, level);
    }
    r := Search(gr, ap, level);
  }
}
