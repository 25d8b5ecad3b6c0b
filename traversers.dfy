/** The generic pre-order walk behind the trie's range scans. A walk is driven by an adjacency
    function that maps the path walked so far (root first) to the ordered next steps. The
    consumer of the walk is modelled in two ways: one that accepts every path (Walk gives the
    sequence of paths it receives), and one that accepts `quota` paths and refuses the next
    (Recurse gives what it receives, which adjacency calls were made, and whether the
    walk was cut short). */
module Traversers {

  function Last<T(!new)>(p: seq<T>): T
    requires p != []
  {
    p[|p| - 1]
  }

  function DropLast<T(!new)>(p: seq<T>): seq<T>
    requires p != []
  {
    p[..|p| - 1]
  }

  /** No element occurs twice. */
  ghost predicate Distinct<T(!new)>(s: seq<T>)
  {
    forall i, j :: 0 <= i < j < |s| ==> s[i] != s[j]
  }

  // Every walk below requires that the adjacency function only offers steps that lower the
  // rank of the path, so the walk is finite (the rank bounds how much deeper it can go).

  /** The paths preOrderRecurse hands to a consumer that never stops it: the path itself,
      then, for each adjacent step in adjacency order, the whole walk below that step. */
  function Walk<T(!new)>(path: seq<T>, adj: seq<T> -> seq<T>, rank: seq<T> -> nat): (w: seq<seq<T>>)
    requires forall p, x | x in adj(p) :: rank(p + [x]) < rank(p)
    ensures |w| >= 1 && w[0] == path
    decreases rank(path), 1, 0
  {
    [path] + WalkAll(path, adj(path), adj, rank)
  }

  /** The walks below the steps xs, one after the other (the loop over adj(path)). */
  function WalkAll<T(!new)>(path: seq<T>, xs: seq<T>, adj: seq<T> -> seq<T>, rank: seq<T> -> nat): seq<seq<T>>
    requires forall p, x | x in adj(p) :: rank(p + [x]) < rank(p)
    requires forall x | x in xs :: x in adj(path)
    decreases rank(path), 0, |xs|
  {
    if xs == [] then []
    else Walk(path + [xs[0]], adj, rank) + WalkAll(path, xs[1..], adj, rank)
  }

  /** A walk is its start path followed by the walks below the start's adjacent steps. */
  lemma WalkUnfold<T(!new)>(path: seq<T>, adj: seq<T> -> seq<T>, rank: seq<T> -> nat)
    requires forall p, x | x in adj(p) :: rank(p + [x]) < rank(p)
    ensures Walk(path, adj, rank) == [path] + WalkAll(path, adj(path), adj, rank)
  {
  }

  /** The walks below non-empty steps are the walk below the first step, then the rest. */
  lemma WalkAllUnfold<T(!new)>(path: seq<T>, xs: seq<T>, adj: seq<T> -> seq<T>, rank: seq<T> -> nat)
    requires forall p, x | x in adj(p) :: rank(p + [x]) < rank(p)
    requires forall x | x in xs :: x in adj(path)
    requires xs != []
    ensures xs[0] in adj(path)
    ensures forall x | x in xs[1..] :: x in adj(path)
    ensures WalkAll(path, xs, adj, rank) == Walk(path + [xs[0]], adj, rank) + WalkAll(path, xs[1..], adj, rank)
  {
  }

  /** preOrder: the walk from the one-element path [root]. */
  function PreOrder<T(!new)>(root: T, adj: seq<T> -> seq<T>, rank: seq<T> -> nat): (w: seq<seq<T>>)
    requires forall p, x | x in adj(p) :: rank(p + [x]) < rank(p)
    ensures |w| >= 1 && w[0] == [root]
  {
    Walk([root], adj, rank)
  }

  /** What preOrderRecurse did against a consumer: whether it reported done (some yield
      returned false), the paths passed to yield in order, the paths adj was called on in
      order, and how many more paths the consumer would still accept. */
  datatype Outcome<T> = Outcome(done: bool, yielded: seq<seq<T>>, adjCalls: seq<seq<T>>, quota: nat)

  /** preOrderRecurse against a consumer that accepts `quota` more paths and refuses the one
      after: yield(path) first; on refusal, return done at once; otherwise call adj(path) and
      recurse into each step until one of them reports done. */
  function Recurse<T(!new)>(path: seq<T>, adj: seq<T> -> seq<T>, rank: seq<T> -> nat, quota: nat): Outcome<T>
    requires forall p, x | x in adj(p) :: rank(p + [x]) < rank(p)
    decreases rank(path), 1, 0
  {
    if quota == 0 then Outcome(true, [path], [], 0)
    else
      var rest := RecurseAll(path, adj(path), adj, rank, quota - 1);
      Outcome(rest.done, [path] + rest.yielded, [path] + rest.adjCalls, rest.quota)
  }

  /** The loop `for node := range adj(path)` of preOrderRecurse over the remaining steps xs. */
  function RecurseAll<T(!new)>(path: seq<T>, xs: seq<T>, adj: seq<T> -> seq<T>, rank: seq<T> -> nat, quota: nat): Outcome<T>
    requires forall p, x | x in adj(p) :: rank(p + [x]) < rank(p)
    requires forall x | x in xs :: x in adj(path)
    decreases rank(path), 0, |xs|
  {
    if xs == [] then Outcome(false, [], [], quota)
    else
      var first := Recurse(path + [xs[0]], adj, rank, quota);
      if first.done then first
      else
        var rest := RecurseAll(path, xs[1..], adj, rank, first.quota);
        Outcome(rest.done, first.yielded + rest.yielded, first.adjCalls + rest.adjCalls, rest.quota)
  }

  function Min(a: int, b: int): int
  {
    if a < b then a else b
  }

  /** Cancellation: against a consumer that accepts quota paths, preOrderRecurse passes it
      exactly the first quota + 1 paths of the full walk (fewer if the walk is shorter),
      calls adj on exactly the paths the consumer accepted, and reports done exactly when
      the consumer refused one, i.e. when the walk had more than quota paths. Nothing is
      yielded and adj is not called after the refusal. */
  lemma {:induction false} RecurseIsWalkPrefix<T(!new)>(path: seq<T>, adj: seq<T> -> seq<T>, rank: seq<T> -> nat, quota: nat)
    requires forall p, x | x in adj(p) :: rank(p + [x]) < rank(p)
    ensures var w, r := Walk(path, adj, rank), Recurse(path, adj, rank, quota);
      && (r.done <==> quota < |w|)
      && r.yielded == w[..Min(quota + 1, |w|)]
      && r.adjCalls == w[..Min(quota, |w|)]
      && (r.done <==> |r.yielded| == quota + 1)
      && (!r.done ==> r.quota == quota - |w|)
    decreases rank(path), 1, 0
  {
    var w := Walk(path, adj, rank);
    if quota > 0 {
      RecurseAllIsWalkAllPrefix(path, adj(path), adj, rank, quota - 1);
      var wa := WalkAll(path, adj(path), adj, rank);
      WalkUnfold(path, adj, rank);
      assert w[..Min(quota + 1, |w|)] == [path] + wa[..Min(quota, |wa|)];
      assert w[..Min(quota, |w|)] == [path] + wa[..Min(quota - 1, |wa|)];
    }
  }

  lemma {:induction false} RecurseAllIsWalkAllPrefix<T(!new)>(path: seq<T>, xs: seq<T>, adj: seq<T> -> seq<T>, rank: seq<T> -> nat, quota: nat)
    requires forall p, x | x in adj(p) :: rank(p + [x]) < rank(p)
    requires forall x | x in xs :: x in adj(path)
    ensures var w, r := WalkAll(path, xs, adj, rank), RecurseAll(path, xs, adj, rank, quota);
      && (r.done <==> quota < |w|)
      && r.yielded == w[..Min(quota + 1, |w|)]
      && r.adjCalls == w[..Min(quota, |w|)]
      && (!r.done ==> r.quota == quota - |w|)
    decreases rank(path), 0, |xs|
  {
    if xs != [] {
      WalkAllUnfold(path, xs, adj, rank);
      var w1 := Walk(path + [xs[0]], adj, rank);
      var w2 := WalkAll(path, xs[1..], adj, rank);
      var first := Recurse(path + [xs[0]], adj, rank, quota);
      RecurseIsWalkPrefix(path + [xs[0]], adj, rank, quota);
      if first.done {
        assert RecurseAll(path, xs, adj, rank, quota) == first;
        CutInFirst(first, w1, w2, quota);
      } else {
        var rest := RecurseAll(path, xs[1..], adj, rank, first.quota);
        assert RecurseAll(path, xs, adj, rank, quota)
            == Outcome(rest.done, first.yielded + rest.yielded, first.adjCalls + rest.adjCalls, rest.quota);
        RecurseAllIsWalkAllPrefix(path, xs[1..], adj, rank, first.quota);
        CutInRest(first, rest, w1, w2, quota);
      }
    }
  }

  /** r is what a consumer accepting quota paths receives from a walk w. */
  ghost predicate Cuts<T>(r: Outcome<T>, w: seq<seq<T>>, quota: nat)
  {
    && (r.done <==> quota < |w|)
    && r.yielded == w[..Min(quota + 1, |w|)]
    && r.adjCalls == w[..Min(quota, |w|)]
    && (!r.done ==> r.quota == quota - |w|)
  }

  lemma CutInFirst<T>(first: Outcome<T>, w1: seq<seq<T>>, w2: seq<seq<T>>, quota: nat)
    requires Cuts(first, w1, quota) && first.done
    ensures Cuts(first, w1 + w2, quota)
  {
    ConcatPrefix(w1, w2, quota + 1);
    ConcatPrefix(w1, w2, quota);
  }

  lemma CutInRest<T>(first: Outcome<T>, rest: Outcome<T>, w1: seq<seq<T>>, w2: seq<seq<T>>, quota: nat)
    requires Cuts(first, w1, quota) && !first.done && Cuts(rest, w2, first.quota)
    ensures Cuts(Outcome(rest.done, first.yielded + rest.yielded, first.adjCalls + rest.adjCalls, rest.quota), w1 + w2, quota)
  {
    ConcatPrefix(w1, w2, Min(quota + 1, |w1| + |w2|));
    ConcatPrefix(w1, w2, Min(quota, |w1| + |w2|));
  }

  lemma ConcatPrefix<T>(a: seq<T>, b: seq<T>, n: nat)
    requires n <= |a| + |b|
    ensures n <= |a| ==> (a + b)[..n] == a[..n]
    ensures n >= |a| ==> (a + b)[..n] == a + b[..n - |a|]
  {
  }

  /** Every path of the walk from path extends path. */
  lemma {:induction false} WalkExtends<T(!new)>(path: seq<T>, adj: seq<T> -> seq<T>, rank: seq<T> -> nat, q: seq<T>)
    requires forall p, x | x in adj(p) :: rank(p + [x]) < rank(p)
    requires q in Walk(path, adj, rank)
    ensures |q| >= |path| && q[..|path|] == path
    decreases rank(path), 1, 0
  {
    if q != path {
      WalkAllExtends(path, adj(path), adj, rank, q);
    }
  }

  /** Every path of the walks below the steps xs extends path by one of those steps. */
  lemma {:induction false} WalkAllExtends<T(!new)>(path: seq<T>, xs: seq<T>, adj: seq<T> -> seq<T>, rank: seq<T> -> nat, q: seq<T>)
    requires forall p, x | x in adj(p) :: rank(p + [x]) < rank(p)
    requires forall x | x in xs :: x in adj(path)
    requires q in WalkAll(path, xs, adj, rank)
    ensures |q| > |path| && q[..|path|] == path && q[|path|] in xs
    decreases rank(path), 0, |xs|
  {
    assert xs[0] in adj(path);
    if q in Walk(path + [xs[0]], adj, rank) {
      WalkExtends(path + [xs[0]], adj, rank, q);
      assert q[..|path|] == q[..|path| + 1][..|path|];
    } else {
      WalkAllExtends(path, xs[1..], adj, rank, q);
    }
  }

  /** Every path after the first is an earlier path extended by one step that adj offered
      for that earlier path. */
  lemma {:induction false} WalkParentEarlier<T(!new)>(path: seq<T>, adj: seq<T> -> seq<T>, rank: seq<T> -> nat, i: nat)
    requires forall p, x | x in adj(p) :: rank(p + [x]) < rank(p)
    requires 0 < i < |Walk(path, adj, rank)|
    ensures var w := Walk(path, adj, rank);
      |w[i]| > |path| && DropLast(w[i]) in w[..i] && Last(w[i]) in adj(DropLast(w[i]))
    decreases rank(path), 1, 0
  {
    var w := Walk(path, adj, rank);
    WalkAllParentEarlier(path, adj(path), adj, rank, i - 1);
    assert w[..i] == [path] + WalkAll(path, adj(path), adj, rank)[..i - 1];
  }

  lemma {:induction false} WalkAllParentEarlier<T(!new)>(path: seq<T>, xs: seq<T>, adj: seq<T> -> seq<T>, rank: seq<T> -> nat, j: nat)
    requires forall p, x | x in adj(p) :: rank(p + [x]) < rank(p)
    requires forall x | x in xs :: x in adj(path)
    requires j < |WalkAll(path, xs, adj, rank)|
    ensures var w := WalkAll(path, xs, adj, rank);
      && |w[j]| > |path|
      && (DropLast(w[j]) == path || DropLast(w[j]) in w[..j])
      && Last(w[j]) in adj(DropLast(w[j]))
    decreases rank(path), 0, |xs|
  {
    var w1 := Walk(path + [xs[0]], adj, rank);
    var w2 := WalkAll(path, xs[1..], adj, rank);
    assert xs[0] in adj(path);
    if j == 0 {
      assert DropLast(path + [xs[0]]) == path;
    } else if j < |w1| {
      WalkParentEarlier(path + [xs[0]], adj, rank, j);
      assert w1[..j] == (w1 + w2)[..j];
    } else {
      WalkAllParentEarlier(path, xs[1..], adj, rank, j - |w1|);
      assert (w1 + w2)[..j] == w1 + w2[..j - |w1|];
    }
  }

  /** Pre-order blocks: wherever a path occurs in a walk, the whole walk below it follows it
      immediately and contiguously, so one step's subtree is finished before the next
      step's begins. */
  lemma {:induction false} WalkBlock<T(!new)>(path: seq<T>, adj: seq<T> -> seq<T>, rank: seq<T> -> nat, i: nat)
    requires forall p, x | x in adj(p) :: rank(p + [x]) < rank(p)
    requires i < |Walk(path, adj, rank)|
    ensures var w := Walk(path, adj, rank);
      i + |Walk(w[i], adj, rank)| <= |w| && w[i..i + |Walk(w[i], adj, rank)|] == Walk(w[i], adj, rank)
    decreases rank(path), 1, 0
  {
    if i > 0 {
      var wa := WalkAll(path, adj(path), adj, rank);
      WalkUnfold(path, adj, rank);
      WalkAllBlock(path, adj(path), adj, rank, i - 1);
      BlockInConcat([path], wa, i, Walk(wa[i - 1], adj, rank));
    }
  }

  lemma {:induction false} WalkAllBlock<T(!new)>(path: seq<T>, xs: seq<T>, adj: seq<T> -> seq<T>, rank: seq<T> -> nat, j: nat)
    requires forall p, x | x in adj(p) :: rank(p + [x]) < rank(p)
    requires forall x | x in xs :: x in adj(path)
    requires j < |WalkAll(path, xs, adj, rank)|
    ensures var w := WalkAll(path, xs, adj, rank);
      j + |Walk(w[j], adj, rank)| <= |w| && w[j..j + |Walk(w[j], adj, rank)|] == Walk(w[j], adj, rank)
    decreases rank(path), 0, |xs|
  {
    WalkAllUnfold(path, xs, adj, rank);
    var w1 := Walk(path + [xs[0]], adj, rank);
    var w2 := WalkAll(path, xs[1..], adj, rank);
    if j < |w1| {
      WalkBlock(path + [xs[0]], adj, rank, j);
      BlockInConcat(w1, w2, j, Walk(w1[j], adj, rank));
    } else {
      var b := Walk(w2[j - |w1|], adj, rank);
      WalkAllBlock(path, xs[1..], adj, rank, j - |w1|);
      BlockInConcat(w1, w2, j, b);
    }
  }

  /** A block b found at index j of one half of a concatenation is found at the matching
      index of the whole. */
  lemma BlockInConcat<T>(a: seq<T>, c: seq<T>, j: nat, b: seq<T>)
    requires j < |a| ==> j + |b| <= |a| && a[j..j + |b|] == b
    requires j >= |a| ==> j - |a| + |b| <= |c| && c[j - |a|..j - |a| + |b|] == b
    ensures j < |a| ==> (a + c)[j] == a[j]
    ensures j >= |a| && j - |a| < |c| ==> (a + c)[j] == c[j - |a|]
    ensures j + |b| <= |a + c| && (a + c)[j..j + |b|] == b
  {
    if j < |a| {
      assert (a + c)[j..j + |b|] == a[j..j + |b|];
    } else {
      assert (a + c)[j..j + |b|] == c[j - |a|..j - |a| + |b|];
    }
  }

  /** The paths the adjacency function generates from start: start itself, and every
      generated path extended by a step adj offers for it. */
  ghost predicate Reaches<T(!new)>(start: seq<T>, adj: seq<T> -> seq<T>, p: seq<T>)
    decreases |p|
  {
    p == start || (|p| > |start| && Reaches(start, adj, DropLast(p)) && Last(p) in adj(DropLast(p)))
  }

  lemma {:induction false} StepInWalk<T(!new)>(path: seq<T>, xs: seq<T>, adj: seq<T> -> seq<T>, rank: seq<T> -> nat, x: T)
    requires forall p, x | x in adj(p) :: rank(p + [x]) < rank(p)
    requires forall y | y in xs :: y in adj(path)
    requires x in xs
    ensures path + [x] in WalkAll(path, xs, adj, rank)
    decreases |xs|
  {
    if xs[0] != x {
      StepInWalk(path, xs[1..], adj, rank, x);
    }
  }

  /** A walk visits every path the adjacency function generates from its start, and no other. */
  lemma {:induction false} WalkVisitsReachable<T(!new)>(start: seq<T>, adj: seq<T> -> seq<T>, rank: seq<T> -> nat, p: seq<T>)
    requires forall p, x | x in adj(p) :: rank(p + [x]) < rank(p)
    ensures p in Walk(start, adj, rank) <==> Reaches(start, adj, p)
  {
    if Reaches(start, adj, p) {
      ReachableInWalk(start, adj, rank, p);
    }
    if p in Walk(start, adj, rank) {
      var w := Walk(start, adj, rank);
      var i :| 0 <= i < |w| && w[i] == p;
      WalkIndexReaches(start, adj, rank, i);
    }
  }

  lemma {:induction false} ReachableInWalk<T(!new)>(start: seq<T>, adj: seq<T> -> seq<T>, rank: seq<T> -> nat, p: seq<T>)
    requires forall p, x | x in adj(p) :: rank(p + [x]) < rank(p)
    requires Reaches(start, adj, p)
    ensures p in Walk(start, adj, rank)
    decreases |p|
  {
    if p != start {
      var q := DropLast(p);
      ReachableInWalk(start, adj, rank, q);
      StepInWalk(q, adj(q), adj, rank, Last(p));
      assert p == q + [Last(p)];
      WalkUnfold(q, adj, rank);
      WalkTransitive(start, q, adj, rank, p);
    }
  }

  /** A path of the walk from a path q of the walk from start is on the walk from start. */
  lemma WalkTransitive<T(!new)>(start: seq<T>, q: seq<T>, adj: seq<T> -> seq<T>, rank: seq<T> -> nat, p: seq<T>)
    requires forall p, x | x in adj(p) :: rank(p + [x]) < rank(p)
    requires q in Walk(start, adj, rank) && p in Walk(q, adj, rank)
    ensures p in Walk(start, adj, rank)
  {
    var w := Walk(start, adj, rank);
    var i :| 0 <= i < |w| && w[i] == q;
    WalkBlock(start, adj, rank, i);
    var wq := Walk(q, adj, rank);
    var k :| 0 <= k < |wq| && wq[k] == p;
    BlockIndex(w, i, wq, k);
  }

  lemma BlockIndex<T>(w: seq<T>, i: nat, b: seq<T>, k: nat)
    requires i + |b| <= |w| && w[i..i + |b|] == b && k < |b|
    ensures i + k < |w| && w[i + k] == b[k]
  {
    assert w[i..i + |b|][k] == w[i + k];
  }

  lemma {:induction false} WalkIndexReaches<T(!new)>(start: seq<T>, adj: seq<T> -> seq<T>, rank: seq<T> -> nat, i: nat)
    requires forall p, x | x in adj(p) :: rank(p + [x]) < rank(p)
    requires i < |Walk(start, adj, rank)|
    ensures Reaches(start, adj, Walk(start, adj, rank)[i])
    decreases i
  {
    if i > 0 {
      var w := Walk(start, adj, rank);
      WalkParentEarlier(start, adj, rank, i);
      var j :| 0 <= j < i && w[..i][j] == DropLast(w[i]);
      WalkIndexReaches(start, adj, rank, j);
    }
  }

  lemma DistinctConcat<T(!new)>(a: seq<T>, b: seq<T>)
    requires Distinct(a) && Distinct(b)
    requires forall x | x in a :: x !in b
    ensures Distinct(a + b)
  {
    forall i, j | 0 <= i < j < |a + b|
      ensures (a + b)[i] != (a + b)[j]
    {
      if i < |a| && j >= |a| {
        assert (a + b)[i] in a && (a + b)[j] == b[j - |a|];
      }
    }
  }

  /** When adj never offers the same step twice, a walk passes every path to its consumer
      exactly once. */
  lemma {:induction false} WalkDistinct<T(!new)>(path: seq<T>, adj: seq<T> -> seq<T>, rank: seq<T> -> nat)
    requires forall p, x | x in adj(p) :: rank(p + [x]) < rank(p)
    requires forall p :: Distinct(adj(p))
    ensures Distinct(Walk(path, adj, rank))
    decreases rank(path), 1, 0
  {
    var wa := WalkAll(path, adj(path), adj, rank);
    WalkAllDistinct(path, adj(path), adj, rank);
    forall q | q in wa
      ensures q != path
    {
      WalkAllExtends(path, adj(path), adj, rank, q);
    }
    DistinctConcat([path], wa);
  }

  lemma {:induction false} WalkAllDistinct<T(!new)>(path: seq<T>, xs: seq<T>, adj: seq<T> -> seq<T>, rank: seq<T> -> nat)
    requires forall p, x | x in adj(p) :: rank(p + [x]) < rank(p)
    requires forall p :: Distinct(adj(p))
    requires forall x | x in xs :: x in adj(path)
    requires Distinct(xs)
    ensures Distinct(WalkAll(path, xs, adj, rank))
    decreases rank(path), 0, |xs|
  {
    if xs != [] {
      var w1 := Walk(path + [xs[0]], adj, rank);
      var w2 := WalkAll(path, xs[1..], adj, rank);
      assert xs[0] in adj(path);
      WalkDistinct(path + [xs[0]], adj, rank);
      assert Distinct(xs[1..]) by {
        forall i, j | 0 <= i < j < |xs[1..]| ensures xs[1..][i] != xs[1..][j] {
          assert xs[1..][i] == xs[i + 1] && xs[1..][j] == xs[j + 1];
        }
      }
      WalkAllDistinct(path, xs[1..], adj, rank);
      forall k | 0 <= k < |xs[1..]|
        ensures xs[1..][k] != xs[0]
      {
        assert xs[1..][k] == xs[k + 1];
      }
      forall q | q in w2
        ensures |q| > |path| && q[|path|] in xs[1..]
      {
        WalkAllExtends(path, xs[1..], adj, rank, q);
      }
      forall q | q in w1
        ensures |q| > |path| && q[|path|] == xs[0]
      {
        WalkExtends(path + [xs[0]], adj, rank, q);
        assert q[|path|] == q[..|path| + 1][|path|];
      }
      DistinctConcat(w1, w2);
    }
  }

  /** A property of paths that holds of the start and that every step adj offers preserves
      holds of every path the walk visits. */
  lemma {:induction false} WalkKeeps<T(!new)>(path: seq<T>, adj: seq<T> -> seq<T>, rank: seq<T> -> nat, inv: seq<T> -> bool)
    requires forall p, x | x in adj(p) :: rank(p + [x]) < rank(p)
    requires forall p, x | inv(p) && x in adj(p) :: inv(p + [x])
    requires inv(path)
    ensures forall q | q in Walk(path, adj, rank) :: inv(q)
    decreases rank(path), 1, 0
  {
    WalkAllKeeps(path, adj(path), adj, rank, inv);
  }

  lemma {:induction false} WalkAllKeeps<T(!new)>(path: seq<T>, xs: seq<T>, adj: seq<T> -> seq<T>, rank: seq<T> -> nat, inv: seq<T> -> bool)
    requires forall p, x | x in adj(p) :: rank(p + [x]) < rank(p)
    requires forall p, x | inv(p) && x in adj(p) :: inv(p + [x])
    requires inv(path)
    requires forall x | x in xs :: x in adj(path)
    ensures forall q | q in WalkAll(path, xs, adj, rank) :: inv(q)
    decreases rank(path), 0, |xs|
  {
    if xs != [] {
      assert xs[0] in adj(path);
      WalkKeeps(path + [xs[0]], adj, rank, inv);
      WalkAllKeeps(path, xs[1..], adj, rank, inv);
    }
  }
}
