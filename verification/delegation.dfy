/**
  Delegated click handling: one listener on the document body decides, for
  each click, whether its target lies inside an element matching a selector,
  and if so walks up from the target to the nearest such element.

  The document is abstracted to a parent map over nodes, and "matches the
  selector" to a set of nodes. A selector S may be a list of alternatives
  ("S1, S2"); `matching` is the set of nodes that match any of them and
  `last` the set of nodes that match its last alternative. For a single
  complex selector the two sets are the same.
 */
module Delegation {

  datatype Option<T> = None | Some(value: T)

  /** The node `k` steps up the parent chain from `n` (`n` itself for k == 0), if the chain is that long. */
  function AncestorAt<N>(parent: map<N, N>, n: N, k: nat): Option<N>
  {
    if k == 0 then Some(n)
    else
      match AncestorAt(parent, n, k - 1)
      case Some(a) => if a in parent then Some(parent[a]) else None
      case None => None
  }

  /** The `k`-th ancestor-or-self of `n` exists and matches the selector. */
  predicate MatchAt<N>(parent: map<N, N>, matching: set<N>, n: N, k: nat)
  {
    AncestorAt(parent, n, k).Some? && AncestorAt(parent, n, k).value in matching
  }

  /** `n.matches("S, S *")`: `n` matches S or is a descendant of an element that does. */
  ghost predicate InScope<N>(parent: map<N, N>, matching: set<N>, n: N)
  {
    exists k: nat :: MatchAt(parent, matching, n, k)
  }

  /**
    `n.matches(S + ", " + S + " *")`, the guard as the listener builds it.
    The appended ` *` only binds to the last alternative of S, so the guard
    holds when `n` matches S or a proper ancestor of `n` matches that last
    alternative.
   */
  ghost predicate GuardHolds<N>(parent: map<N, N>, matching: set<N>, last: set<N>, n: N)
  {
    n in matching || exists k: nat :: 1 <= k && MatchAt(parent, last, n, k)
  }

  /** The parent chain from `n` ends: the document tree is finite. */
  ghost predicate ReachesRoot<N>(parent: map<N, N>, n: N)
  {
    exists k: nat :: AncestorAt(parent, n, k).None?
  }

  /** `m` is the nearest ancestor-or-self of `n` that matches the selector. */
  ghost predicate NearestMatch<N>(parent: map<N, N>, matching: set<N>, n: N, m: N)
  {
    exists k: nat ::
      && AncestorAt(parent, n, k) == Some(m)
      && m in matching
      && forall j: nat :: j < k ==> !MatchAt(parent, matching, n, j)
  }

  /** Once the chain has ended it stays ended: an ancestor that exists has all nearer ones. */
  lemma {:induction false} AncestorsBelowExist<N>(parent: map<N, N>, n: N, k: nat, j: nat)
    requires AncestorAt(parent, n, k).Some?
    requires j <= k
    ensures AncestorAt(parent, n, j).Some?
    decreases k
  {
    if j < k {
      AncestorsBelowExist(parent, n, k - 1, j);
    }
  }

  /** Once the chain has ended, every further step up is missing too. */
  lemma {:induction false} NoneAbove<N>(parent: map<N, N>, n: N, j: nat, k: nat)
    requires AncestorAt(parent, n, j).None?
    requires j <= k
    ensures AncestorAt(parent, n, k).None?
    decreases k
  {
    if j < k {
      NoneAbove(parent, n, j, k - 1);
    }
  }

  /** Whatever the last alternative, the guard promises a matching ancestor-or-self. */
  lemma GuardInScope<N>(parent: map<N, N>, matching: set<N>, last: set<N>, n: N)
    requires last <= matching
    requires GuardHolds(parent, matching, last, n)
    ensures InScope(parent, matching, n)
  {
    if n in matching {
      assert MatchAt(parent, matching, n, 0);
    } else {
      var k: nat :| 1 <= k && MatchAt(parent, last, n, k);
      assert MatchAt(parent, matching, n, k);
    }
  }

  /** For a single complex selector the guard is exactly "the target or an ancestor matches". */
  lemma SingleSelectorGuard<N>(parent: map<N, N>, matching: set<N>, n: N)
    ensures GuardHolds(parent, matching, matching, n) <==> InScope(parent, matching, n)
  {
    if InScope(parent, matching, n) {
      var k: nat :| MatchAt(parent, matching, n, k);
      if k == 0 {
        assert n in matching;
      }
    }
    if GuardHolds(parent, matching, matching, n) {
      GuardInScope(parent, matching, matching, n);
    }
  }

  /**
    The loop of the delegated listener: starting at the target, step to the
    parent until the selector matches. The caller's guard promises a matching
    ancestor-or-self, which is what lets the loop stop and keeps every step
    inside the tree.
   */
  method ClosestMatch<N>(parent: map<N, N>, matching: set<N>, target: N) returns (m: N)
    requires InScope(parent, matching, target)
    ensures NearestMatch(parent, matching, target, m)
  {
    ghost var k: nat :| MatchAt(parent, matching, target, k);
    ghost var d: nat := 0;
    m := target;
    while m !in matching
      invariant d <= k
      invariant AncestorAt(parent, target, d) == Some(m)
      invariant forall j: nat :: j < d ==> !MatchAt(parent, matching, target, j)
      decreases k - d
    {
      AncestorsBelowExist(parent, target, k, d + 1);
      m := parent[m];
      d := d + 1;
    }
  }

  /**
    Evaluates the guard `target.matches(S + ", " + S + " *")`: the target
    against all of S, then each proper ancestor against the last alternative.
   */
  method HasMatchingAncestor<N>(parent: map<N, N>, matching: set<N>, last: set<N>, target: N) returns (b: bool)
    requires ReachesRoot(parent, target)
    ensures b <==> GuardHolds(parent, matching, last, target)
  {
    if target in matching {
      b := true;
    } else {
      ghost var k: nat :| AncestorAt(parent, target, k).None?;
      ghost var d: nat := 1;
      var current := if target in parent then Some(parent[target]) else None;
      while current.Some? && current.value !in last
        invariant 1 <= d <= k
        invariant current == AncestorAt(parent, target, d)
        invariant forall j: nat :: 1 <= j < d ==> !MatchAt(parent, last, target, j)
        decreases k - d
      {
        current := if current.value in parent then Some(parent[current.value]) else None;
        d := d + 1;
      }
      b := current.Some?;
      if b {
        assert MatchAt(parent, last, target, d);
      } else {
        forall j: nat | d <= j ensures !MatchAt(parent, last, target, j) {
          NoneAbove(parent, target, d, j);
        }
      }
    }
  }

  /**
    The whole delegated click listener as written: when the guard holds, the
    handler receives the nearest ancestor-or-self of the target matching S;
    otherwise the click is ignored.
   */
  method Dispatch<N>(parent: map<N, N>, matching: set<N>, last: set<N>, target: N) returns (r: Option<N>)
    requires ReachesRoot(parent, target)
    requires last <= matching
    ensures r.Some? <==> GuardHolds(parent, matching, last, target)
    ensures r.Some? ==> NearestMatch(parent, matching, target, r.value)
  {
    var guard := HasMatchingAncestor(parent, matching, last, target);
    if guard {
      GuardInScope(parent, matching, last, target);
      var m := ClosestMatch(parent, matching, target);
      r := Some(m);
    } else {
      r := None;
    }
  }

  /**
    The guard with ` *` applied to every alternative, as the listener's
    comment describes it: the target or one of its ancestors matches S.
   */
  method ScopeGuard<N>(parent: map<N, N>, matching: set<N>, target: N) returns (b: bool)
    requires ReachesRoot(parent, target)
    ensures b <==> InScope(parent, matching, target)
  {
    ghost var k: nat :| AncestorAt(parent, target, k).None?;
    ghost var d: nat := 0;
    var current := Some(target);
    while current.Some? && current.value !in matching
      invariant d <= k
      invariant current == AncestorAt(parent, target, d)
      invariant forall j: nat :: j < d ==> !MatchAt(parent, matching, target, j)
      decreases k - d
    {
      current := if current.value in parent then Some(parent[current.value]) else None;
      d := d + 1;
    }
    b := current.Some?;
    if b {
      assert MatchAt(parent, matching, target, d);
    } else {
      forall j: nat | d <= j ensures !MatchAt(parent, matching, target, j) {
        NoneAbove(parent, target, d, j);
      }
    }
  }

  /**
    The delegated listener with the guard it is meant to have: every click
    inside an element matching any alternative of S reaches the handler,
    with the nearest such element.
   */
  method DispatchInScope<N>(parent: map<N, N>, matching: set<N>, target: N) returns (r: Option<N>)
    requires ReachesRoot(parent, target)
    ensures r.Some? <==> InScope(parent, matching, target)
    ensures r.Some? ==> NearestMatch(parent, matching, target, r.value)
  {
    var inScope := ScopeGuard(parent, matching, target);
    if inScope {
      var m := ClosestMatch(parent, matching, target);
      r := Some(m);
    } else {
      r := None;
    }
  }

  /**
    With S = ".a, .b", a node 0 whose parent 1 matches `.a` (and not `.b`)
    is inside an element matching S, yet the guard is false: the ` *` only
    covers descendants of `.b`, so the click is dropped.
   */
  lemma ListGuardMissesDescendant()
    ensures InScope(map[0 := 1], {1, 2}, 0)
    ensures !GuardHolds(map[0 := 1], {1, 2}, {2}, 0)
  {
    var parent := map[0 := 1];
    assert MatchAt(parent, {1, 2}, 0, 1);
    assert AncestorAt(parent, 0, 2).None?;
    forall k: nat | 1 <= k ensures !MatchAt(parent, {2}, 0, k) {
      if 2 <= k {
        NoneAbove(parent, 0, 2, k);
      }
    }
  }

  /** There is only one nearest matching ancestor, so the handler's element is determined. */
  lemma NearestMatchUnique<N>(parent: map<N, N>, matching: set<N>, n: N, m1: N, m2: N)
    requires NearestMatch(parent, matching, n, m1)
    requires NearestMatch(parent, matching, n, m2)
    ensures m1 == m2
  {
    var k1: nat :| AncestorAt(parent, n, k1) == Some(m1) && m1 in matching
      && forall j: nat :: j < k1 ==> !MatchAt(parent, matching, n, j);
    var k2: nat :| AncestorAt(parent, n, k2) == Some(m2) && m2 in matching
      && forall j: nat :: j < k2 ==> !MatchAt(parent, matching, n, j);
    assert MatchAt(parent, matching, n, k1) && MatchAt(parent, matching, n, k2);
  }

  /** A target that itself matches the selector is its own nearest match. */
  lemma TargetMatchesItself<N>(parent: map<N, N>, matching: set<N>, target: N)
    requires target in matching
    ensures NearestMatch(parent, matching, target, target)
  {
    assert AncestorAt(parent, target, 0) == Some(target);
  }
}
