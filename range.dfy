/** Range scans over a trie, independent of how the trie is stored: the range bounds as the
    scan consults them, the nodes as the scan sees them, the two child-adjacency functions
    that narrow each node's children to the admissible ones, and the filter that turns the
    visited nodes into the yielded (key, value) entries. */
module TrieRange {
  import opened Bytes
  import opened Traversers

  /** What Bounds.childBounds reports for a key prefix: the next bytes start..stop are the
      admissible ones (stop..start for reverse bounds), and none is when ok is false. */
  datatype ChildBounds = ChildBounds(start: byte, stop: byte, ok: bool)

  /** A Bounds value, as far as Range uses it: its direction, Compare, which places a complete
      key below (< 0), within (0) or above (> 0) the bounds, and childBounds. The algorithms
      behind Compare and childBounds are not part of this model; they are carried as
      functions. A Bounds is a value here, so Range's defensive Clone is the identity. */
  datatype Bounds = Bounds(isReverse: bool, compare: seq<byte> -> int, childBounds: seq<byte> -> ChildBounds)

  /** A node as a range scan sees it, together with everything below it. */
  datatype Trie<V> = Trie(keyByte: byte, children: seq<Trie<V>>, isTerminal: bool, value: V)

  /** rangePath: a node together with its key, the key bytes from the root down to it. */
  datatype RangePath<V> = RangePath(node: Trie<V>, key: seq<byte>)

  /** What Range yields: a key and the value stored under it. */
  datatype Entry<V> = Entry(key: seq<byte>, value: V)

  /** postOrder, whose definition is not part of this model: the nodes it visits from a start
      node, in order, given an adjacency function. Range uses it for reverse bounds. */
  type PostOrder<!V> = (RangePath<V>, RangePath<V> -> seq<RangePath<V>>) -> seq<RangePath<V>>

  /** Children strictly ascending by key byte. */
  predicate Ascending<V>(cs: seq<Trie<V>>)
  {
    forall i, j | 0 <= i < j < |cs| :: cs[i].keyByte < cs[j].keyByte
  }

  /** Every node of t keeps its children strictly ascending by key byte. */
  predicate Sorted<V>(t: Trie<V>)
    decreases t
  {
    Ascending(t.children) && forall i | 0 <= i < |t.children| :: Sorted(t.children[i])
  }

  /** The number of nodes in t. */
  function Size<V>(t: Trie<V>): nat
    decreases t
  {
    1 + SizeAll(t.children)
  }

  function SizeAll<V>(ts: seq<Trie<V>>): nat
    decreases ts
  {
    if ts == [] then 0 else Size(ts[0]) + SizeAll(ts[1..])
  }

  /** A child has fewer nodes than its parent. */
  lemma {:induction false} ChildSmaller<V>(ts: seq<Trie<V>>, c: Trie<V>)
    requires c in ts
    ensures Size(c) <= SizeAll(ts)
    decreases ts
  {
    if ts[0] != c {
      ChildSmaller(ts[1..], c);
    }
  }

  function Backwards<X>(s: seq<X>): (r: seq<X>)
    ensures |r| == |s| && forall i | 0 <= i < |s| :: r[i] == s[|s| - 1 - i]
  {
    seq(|s|, i requires 0 <= i < |s| => s[|s| - 1 - i])
  }

  /** The nodes among cs whose key bytes lie in lo..hi, in the order of cs, each paired with
      key extended by its byte. */
  function Within<V>(cs: seq<Trie<V>>, key: seq<byte>, lo: byte, hi: byte): seq<RangePath<V>>
  {
    if cs == [] then []
    else
      (if lo <= cs[0].keyByte <= hi then [RangePath(cs[0], key + [cs[0].keyByte])] else [])
      + Within(cs[1..], key, lo, hi)
  }

  lemma {:induction false} WithinConcat<V>(a: seq<Trie<V>>, b: seq<Trie<V>>, key: seq<byte>, lo: byte, hi: byte)
    ensures Within(a + b, key, lo, hi) == Within(a, key, lo, hi) + Within(b, key, lo, hi)
  {
    if a != [] {
      assert (a + b)[1..] == a[1..] + b;
      WithinConcat(a[1..], b, key, lo, hi);
    } else {
      assert a + b == b;
    }
  }

  /** Within keeps exactly the nodes of cs whose bytes lie in lo..hi, each under key
      extended by its byte. */
  lemma {:induction false} WithinMembers<V>(cs: seq<Trie<V>>, key: seq<byte>, lo: byte, hi: byte)
    ensures forall x | x in Within(cs, key, lo, hi) ::
      x.node in cs && lo <= x.node.keyByte <= hi && x.key == key + [x.node.keyByte]
    ensures forall c | c in cs && lo <= c.keyByte <= hi :: RangePath(c, key + [c.keyByte]) in Within(cs, key, lo, hi)
  {
    if cs != [] {
      WithinMembers(cs[1..], key, lo, hi);
      assert forall c | c in cs && c != cs[0] :: c in cs[1..];
    }
  }

  /** Within of nodes whose bytes all lie outside lo..hi is empty. */
  lemma {:induction false} WithinNone<V>(cs: seq<Trie<V>>, key: seq<byte>, lo: byte, hi: byte)
    requires forall i | 0 <= i < |cs| :: cs[i].keyByte < lo || hi < cs[i].keyByte
    ensures Within(cs, key, lo, hi) == []
  {
    if cs != [] {
      WithinNone(cs[1..], key, lo, hi);
    }
  }

  /** Byte a comes before byte b in ascending (up) or descending order. */
  predicate Before(a: byte, b: byte, up: bool)
  {
    if up then a < b else a > b
  }

  /** Within keeps the order of cs: when cs is ascending (descending) by key byte, so is the
      result. */
  lemma {:induction false} WithinOrdered<V>(cs: seq<Trie<V>>, key: seq<byte>, lo: byte, hi: byte, up: bool)
    requires forall i, j | 0 <= i < j < |cs| :: Before(cs[i].keyByte, cs[j].keyByte, up)
    ensures forall i, j | 0 <= i < j < |Within(cs, key, lo, hi)| ::
      Before(Within(cs, key, lo, hi)[i].node.keyByte, Within(cs, key, lo, hi)[j].node.keyByte, up)
  {
    if cs != [] {
      var tail := cs[1..];
      var rest := Within(tail, key, lo, hi);
      WithinOrdered(tail, key, lo, hi, up);
      var r := Within(cs, key, lo, hi);
      if lo <= cs[0].keyByte <= hi {
        WithinMembers(tail, key, lo, hi);
        assert r == [RangePath(cs[0], key + [cs[0].keyByte])] + rest;
        forall i, j | 0 <= i < j < |r|
          ensures Before(r[i].node.keyByte, r[j].node.keyByte, up)
        {
          assert r[j] == rest[j - 1] && r[j] in rest;
          if i == 0 {
            var k :| 0 <= k < |tail| && tail[k] == r[j].node;
            assert cs[k + 1] == r[j].node;
          } else {
            assert r[i] == rest[i - 1];
          }
        }
      } else {
        assert r == rest;
      }
    }
  }

  /** forwardChildAdj's sequence for path: path's children whose bytes lie in start..stop,
      in child order, when childBounds admits any; none otherwise. */
  function ForwardAdj<V>(bounds: Bounds, path: RangePath<V>): seq<RangePath<V>>
  {
    var cb := bounds.childBounds(path.key);
    if !cb.ok then [] else Within(path.node.children, path.key, cb.start, cb.stop)
  }

  /** reverseChildAdj's sequence for path: path's children whose bytes lie in stop..start,
      in reverse child order, when childBounds admits any; none otherwise. */
  function ReverseAdj<V>(bounds: Bounds, path: RangePath<V>): seq<RangePath<V>>
  {
    var cb := bounds.childBounds(path.key);
    if !cb.ok then [] else Within(Backwards(path.node.children), path.key, cb.stop, cb.start)
  }

  /** The forward adjacency yields nothing when childBounds reports !ok; otherwise exactly the
      children whose key bytes lie in start..stop, each under the path's key extended by its
      byte, in ascending byte order when the children are ascending. */
  lemma ForwardAdjYields<V>(bounds: Bounds, path: RangePath<V>)
    ensures var cb, r := bounds.childBounds(path.key), ForwardAdj(bounds, path);
      && (!cb.ok ==> r == [])
      && (forall x | x in r :: x.node in path.node.children && cb.start <= x.node.keyByte <= cb.stop && x.key == path.key + [x.node.keyByte])
      && (forall c | c in path.node.children && cb.ok && cb.start <= c.keyByte <= cb.stop :: RangePath(c, path.key + [c.keyByte]) in r)
      && (Ascending(path.node.children) ==> forall i, j | 0 <= i < j < |r| :: r[i].node.keyByte < r[j].node.keyByte)
  {
    var cb := bounds.childBounds(path.key);
    WithinMembers(path.node.children, path.key, cb.start, cb.stop);
    if Ascending(path.node.children) && cb.ok {
      WithinOrdered(path.node.children, path.key, cb.start, cb.stop, true);
      var r := ForwardAdj(bounds, path);
      assert r == Within(path.node.children, path.key, cb.start, cb.stop);
    }
  }

  /** The forward adjacency offers every child whose key byte childBounds admits. */
  lemma ForwardAdjOffers<V>(bounds: Bounds, path: RangePath<V>, j: nat)
    requires j < |path.node.children|
    requires var cb := bounds.childBounds(path.key);
      cb.ok && cb.start <= path.node.children[j].keyByte <= cb.stop
    ensures var c := path.node.children[j];
      RangePath(c, path.key + [c.keyByte]) in ForwardAdj(bounds, path)
  {
    var cb := bounds.childBounds(path.key);
    WithinMembers(path.node.children, path.key, cb.start, cb.stop);
  }

  /** The reverse adjacency yields nothing when childBounds reports !ok; otherwise exactly the
      children whose key bytes lie in stop..start, each under the path's key extended by its
      byte, in descending byte order when the children are ascending. */
  lemma ReverseAdjYields<V>(bounds: Bounds, path: RangePath<V>)
    ensures var cb, r := bounds.childBounds(path.key), ReverseAdj(bounds, path);
      && (!cb.ok ==> r == [])
      && (forall x | x in r :: x.node in path.node.children && cb.stop <= x.node.keyByte <= cb.start && x.key == path.key + [x.node.keyByte])
      && (forall c | c in path.node.children && cb.ok && cb.stop <= c.keyByte <= cb.start :: RangePath(c, path.key + [c.keyByte]) in r)
      && (Ascending(path.node.children) ==> forall i, j | 0 <= i < j < |r| :: r[i].node.keyByte > r[j].node.keyByte)
  {
    var cb := bounds.childBounds(path.key);
    var cs := path.node.children;
    var bw := Backwards(cs);
    WithinMembers(bw, path.key, cb.stop, cb.start);
    BackwardsMembers(cs);
    if Ascending(cs) && cb.ok {
      BackwardsDescending(cs);
      WithinOrdered(bw, path.key, cb.stop, cb.start, false);
    }
  }

  /** Reversing keeps the elements. */
  lemma BackwardsMembers<X>(s: seq<X>)
    ensures forall x :: x in s <==> x in Backwards(s)
  {
    forall x | x in s
      ensures x in Backwards(s)
    {
      var i :| 0 <= i < |s| && s[i] == x;
      assert Backwards(s)[|s| - 1 - i] == x;
    }
  }

  /** Reversed ascending children are descending. */
  lemma BackwardsDescending<V>(cs: seq<Trie<V>>)
    requires Ascending(cs)
    ensures forall i, j | 0 <= i < j < |cs| :: Before(Backwards(cs)[i].keyByte, Backwards(cs)[j].keyByte, false)
  {
  }

  /** forwardChildAdj: scans the children in order, skipping those below start and stopping
      at the first one above stop. Because the children are ascending, stopping early loses
      nothing: the result is ForwardAdj (see ForwardAdjYields). */
  method ForwardChildAdj<V>(bounds: Bounds, path: RangePath<V>) returns (out: seq<RangePath<V>>)
    requires Ascending(path.node.children)
    ensures out == ForwardAdj(bounds, path)
  {
    var cb := bounds.childBounds(path.key);
    if !cb.ok {
      return [];
    }
    var cs := path.node.children;
    out := [];
    for i := 0 to |cs|
      invariant out == Within(cs[..i], path.key, cb.start, cb.stop)
    {
      assert cs[..i + 1] == cs[..i] + [cs[i]];
      WithinConcat(cs[..i], [cs[i]], path.key, cb.start, cb.stop);
      var keyByte := cs[i].keyByte;
      if keyByte < cb.start {
        continue;
      }
      if keyByte > cb.stop {
        ForwardStopsEarly(cs, i, path.key, cb.start, cb.stop);
        return;
      }
      out := out + [RangePath(cs[i], path.key + [keyByte])];
    }
    assert cs[..|cs|] == cs;
  }

  /** reverseChildAdj: scans the children from the last one back, skipping those above start
      and stopping at the first one below stop. Because the children are ascending, stopping
      early loses nothing: the result is ReverseAdj (see ReverseAdjYields). */
  method ReverseChildAdj<V>(bounds: Bounds, path: RangePath<V>) returns (out: seq<RangePath<V>>)
    requires Ascending(path.node.children)
    ensures out == ReverseAdj(bounds, path)
  {
    var cb := bounds.childBounds(path.key);
    if !cb.ok {
      return [];
    }
    var cs := path.node.children;
    out := [];
    for i := |cs| downto 0
      invariant out == Within(Backwards(cs[i..]), path.key, cb.stop, cb.start)
    {
      BackwardsStep(cs, i);
      WithinConcat(Backwards(cs[i + 1..]), [cs[i]], path.key, cb.stop, cb.start);
      var keyByte := cs[i].keyByte;
      if keyByte > cb.start {
        continue;
      }
      if keyByte < cb.stop {
        ReverseStopsEarly(cs, i, path.key, cb.stop, cb.start);
        return;
      }
      out := out + [RangePath(cs[i], path.key + [keyByte])];
    }
    assert cs[0..] == cs;
  }

  /** Once forwardChildAdj meets a child above stop, the children after it are above stop
      too, so what it has collected is all of the forward adjacency. */
  lemma ForwardStopsEarly<V>(cs: seq<Trie<V>>, i: nat, key: seq<byte>, lo: byte, hi: byte)
    requires Ascending(cs) && i < |cs| && cs[i].keyByte > hi
    ensures Within(cs, key, lo, hi) == Within(cs[..i], key, lo, hi)
  {
    WithinNone(cs[i..], key, lo, hi);
    assert cs == cs[..i] + cs[i..];
    WithinConcat(cs[..i], cs[i..], key, lo, hi);
  }

  lemma BackwardsStep<X>(cs: seq<X>, i: nat)
    requires i < |cs|
    ensures Backwards(cs[i..]) == Backwards(cs[i + 1..]) + [cs[i]]
  {
  }

  /** Once reverseChildAdj meets a child below stop, the children before it are below stop
      too, so what it has collected is all of the reverse adjacency. */
  lemma ReverseStopsEarly<V>(cs: seq<Trie<V>>, i: nat, key: seq<byte>, lo: byte, hi: byte)
    requires Ascending(cs) && i < |cs| && cs[i].keyByte < lo
    ensures Within(Backwards(cs), key, lo, hi) == Within(Backwards(cs[i + 1..]), key, lo, hi)
  {
    assert Backwards(cs) == Backwards(cs[i + 1..]) + Backwards(cs[..i + 1]);
    WithinNone(Backwards(cs[..i + 1]), key, lo, hi);
    WithinConcat(Backwards(cs[i + 1..]), Backwards(cs[..i + 1]), key, lo, hi);
  }

  /** The number of leading visited nodes whose keys are not above the bounds: Range stops at
      the first node above them. */
  function FirstAbove<V>(visits: seq<RangePath<V>>, bounds: Bounds): (n: nat)
    ensures n <= |visits|
    ensures forall j | 0 <= j < n :: bounds.compare(visits[j].key) <= 0
    ensures n < |visits| ==> bounds.compare(visits[n].key) > 0
  {
    if visits == [] || bounds.compare(visits[0].key) > 0 then 0
    else 1 + FirstAbove(visits[1..], bounds)
  }

  /** The entries of the terminal nodes among visits whose keys are within the bounds, in
      visiting order. */
  function Selected<V>(visits: seq<RangePath<V>>, bounds: Bounds): seq<Entry<V>>
  {
    if visits == [] then []
    else
      var p := visits[|visits| - 1];
      Selected(visits[..|visits| - 1], bounds)
      + (if bounds.compare(p.key) == 0 && p.node.isTerminal then [Entry(p.key, p.node.value)] else [])
  }

  /** Selected yields an entry exactly for each visited terminal node within the bounds, with
      that node's key and value; it is a subsequence of the visits. */
  lemma {:induction false} SelectedMembers<V>(visits: seq<RangePath<V>>, bounds: Bounds)
    ensures forall e | e in Selected(visits, bounds) ::
      bounds.compare(e.key) == 0
      && exists p | p in visits :: p.key == e.key && p.node.isTerminal && p.node.value == e.value
    ensures forall p | p in visits && bounds.compare(p.key) == 0 && p.node.isTerminal ::
      Entry(p.key, p.node.value) in Selected(visits, bounds)
    decreases |visits|
  {
    if visits != [] {
      SelectedMembers(visits[..|visits| - 1], bounds);
      assert visits == visits[..|visits| - 1] + [visits[|visits| - 1]];
    }
  }

  /** Selected keeps the visiting order: when the visited keys are strictly ascending, so are
      the keys it yields. */
  lemma {:induction false} SelectedAscending<V>(visits: seq<RangePath<V>>, bounds: Bounds)
    requires forall i, j | 0 <= i < j < |visits| :: Less(visits[i].key, visits[j].key)
    ensures forall i, j | 0 <= i < j < |Selected(visits, bounds)| ::
      Less(Selected(visits, bounds)[i].key, Selected(visits, bounds)[j].key)
    decreases |visits|
  {
    if visits != [] {
      var front := visits[..|visits| - 1];
      SelectedAscending(front, bounds);
      SelectedMembers(front, bounds);
      var s := Selected(visits, bounds);
      var s' := Selected(front, bounds);
      assert s == s' + (if bounds.compare(visits[|visits| - 1].key) == 0 && visits[|visits| - 1].node.isTerminal
        then [Entry(visits[|visits| - 1].key, visits[|visits| - 1].node.value)] else []);
      forall i, j | 0 <= i < j < |s|
        ensures Less(s[i].key, s[j].key)
      {
        if j < |s'| {
          assert s[i] == s'[i] && s[j] == s'[j];
          assert Less(s'[i].key, s'[j].key);
        } else {
          assert s[i] == s'[i] && s'[i] in s';
          var p :| p in front && p.key == s'[i].key && p.node.isTerminal && p.node.value == s'[i].value;
          var k :| 0 <= k < |front| && front[k] == p;
          assert visits[k] == p && k < |visits| - 1;
          assert s[j].key == visits[|visits| - 1].key;
          assert Less(visits[k].key, visits[|visits| - 1].key);
        }
      }
    }
  }

  /** The loop of the sequence Range returns: for each visited node, in order, skip it when
      its key is below the bounds, stop when it is above them, and yield its key and value
      when it is terminal. The result is the selection among the nodes before the first one
      above the bounds. */
  method Emit<V>(visits: seq<RangePath<V>>, bounds: Bounds) returns (out: seq<Entry<V>>)
    ensures out == Selected(visits[..FirstAbove(visits, bounds)], bounds)
  {
    out := [];
    for i := 0 to |visits|
      invariant out == Selected(visits[..i], bounds)
      invariant forall j | 0 <= j < i :: bounds.compare(visits[j].key) <= 0
    {
      var path := visits[i];
      assert visits[..i + 1][..i] == visits[..i] && visits[..i + 1][i] == path;
      var cmp := bounds.compare(path.key);
      if cmp < 0 {
        continue;
      }
      if cmp > 0 {
        FirstAboveAt(visits, bounds, i);
        return;
      }
      if path.node.isTerminal {
        out := out + [Entry(path.key, path.node.value)];
      }
    }
    FirstAboveAt(visits, bounds, |visits|);
  }

  /** The first index whose key is above the bounds, when every earlier one is not. */
  lemma {:induction false} FirstAboveAt<V>(visits: seq<RangePath<V>>, bounds: Bounds, i: nat)
    requires i <= |visits| && forall j | 0 <= j < i :: bounds.compare(visits[j].key) <= 0
    requires i < |visits| ==> bounds.compare(visits[i].key) > 0
    ensures FirstAbove(visits, bounds) == i
    decreases i
  {
    if i > 0 {
      FirstAboveAt(visits[1..], bounds, i - 1);
    }
  }

  /** The key of the last node of a path (the empty key for the empty path). */
  function KeyOf<V>(p: seq<RangePath<V>>): seq<byte>
  {
    if p == [] then [] else p[|p| - 1].key
  }

  /** A path's rank: the size of its last node. Every child an adjacency function offers is
      smaller, so walks over a trie are finite. */
  function Rank<V>(p: seq<RangePath<V>>): nat
  {
    if p == [] then 0 else Size(p[|p| - 1].node)
  }

  /** forwardChildAdj as the adjFunction of the traversal, which is handed the whole path and
      looks only at its last node. */
  function ForwardPathAdj<V>(bounds: Bounds): seq<RangePath<V>> -> seq<RangePath<V>>
  {
    p => if p == [] then [] else ForwardAdj(bounds, p[|p| - 1])
  }

  /** Every step the forward adjacency offers lowers the rank. */
  lemma ForwardRanked<V(!new)>(bounds: Bounds)
    ensures forall p: seq<RangePath<V>>, x | x in ForwardPathAdj(bounds)(p) :: Rank(p + [x]) < Rank(p)
  {
    forall p: seq<RangePath<V>>, x | x in ForwardPathAdj(bounds)(p)
      ensures Rank(p + [x]) < Rank(p)
    {
      var r := p[|p| - 1];
      ForwardAdjYields(bounds, r);
      ChildSmaller(r.node.children, x.node);
    }
  }

  /** The nodes preOrder visits from the root for forward bounds, in order: the last node of
      every path the traversal yields. */
  function ForwardVisits<V(!new)>(root: Trie<V>, bounds: Bounds): (vs: seq<RangePath<V>>)
    ensures vs != [] && vs[0] == RangePath(root, [])
  {
    ForwardRanked<V>(bounds);
    var w := PreOrder(RangePath(root, []), ForwardPathAdj(bounds), Rank);
    ForwardPathsNonEmpty(root, bounds);
    seq(|w|, i requires 0 <= i < |w| => w[i][|w[i]| - 1])
  }

  lemma ForwardPathsNonEmpty<V(!new)>(root: Trie<V>, bounds: Bounds)
    requires forall p: seq<RangePath<V>>, x | x in ForwardPathAdj(bounds)(p) :: Rank(p + [x]) < Rank(p)
    ensures var w := PreOrder(RangePath(root, []), ForwardPathAdj(bounds), Rank);
      forall i | 0 <= i < |w| :: w[i] != []
  {
    var w := PreOrder(RangePath(root, []), ForwardPathAdj(bounds), Rank);
    forall i | 0 <= i < |w|
      ensures w[i] != []
    {
      WalkExtends([RangePath(root, [])], ForwardPathAdj(bounds), Rank, w[i]);
    }
  }

  /** The nodes Range visits: preOrder with forwardChildAdj for forward bounds, postOrder
      with reverseChildAdj for reverse bounds. */
  function Visits<V(!new)>(root: Trie<V>, bounds: Bounds, postOrder: PostOrder<V>): seq<RangePath<V>>
  {
    if bounds.isReverse then postOrder(RangePath(root, []), path => ReverseAdj(bounds, path))
    else ForwardVisits(root, bounds)
  }

  /** For a sorted node, the forward adjacency offers sorted children, each under the path's
      key extended by its byte, in ascending byte order. */
  lemma ForwardStep<V(!new)>(bounds: Bounds, p: seq<RangePath<V>>)
    requires p != [] && Sorted(p[|p| - 1].node)
    ensures var xs := ForwardPathAdj(bounds)(p);
      && (forall x | x in xs :: Sorted(x.node) && x.key == KeyOf(p) + [x.node.keyByte])
      && (forall i, j | 0 <= i < j < |xs| :: xs[i].node.keyByte < xs[j].node.keyByte)
  {
    var r := p[|p| - 1];
    ForwardAdjYields(bounds, r);
    forall x | x in ForwardPathAdj(bounds)(p)
      ensures Sorted(x.node)
    {
      var i :| 0 <= i < |r.node.children| && r.node.children[i] == x.node;
    }
  }

  /** The paths that end at a node recorded in s under the node's own key. */
  ghost function EndsIn<V>(s: map<seq<byte>, Trie<V>>): seq<RangePath<V>> -> bool
  {
    (p: seq<RangePath<V>>) => p != [] && p[|p| - 1].key in s && p[|p| - 1].node == s[p[|p| - 1].key]
  }

  lemma EndsInLast<V>(s: map<seq<byte>, Trie<V>>, p: seq<RangePath<V>>) returns (r: RangePath<V>)
    requires EndsIn(s)(p)
    ensures p != [] && r == p[|p| - 1] && r.key in s && r.node == s[r.key]
  {
    r := p[|p| - 1];
  }

  lemma EndsInStep<V>(s: map<seq<byte>, Trie<V>>, p: seq<RangePath<V>>, x: RangePath<V>)
    requires x.key in s && x.node == s[x.key]
    ensures EndsIn(s)(p + [x])
  {
    assert (p + [x])[|p + [x]| - 1] == x;
  }

  /** The keys of the last nodes of paths. */
  function KeysOf<V>(w: seq<seq<RangePath<V>>>): (ks: seq<seq<byte>>)
    ensures |ks| == |w| && forall i | 0 <= i < |w| :: ks[i] == KeyOf(w[i])
  {
    seq(|w|, i requires 0 <= i < |w| => KeyOf(w[i]))
  }

  /** adj offers, for a path ending at a sorted node, sorted nodes in strictly ascending
      byte order, each under the path's key extended by its byte. */
  ghost predicate Orderly<V(!new)>(adj: seq<RangePath<V>> -> seq<RangePath<V>>)
  {
    forall p: seq<RangePath<V>> | p != [] && Sorted(p[|p| - 1].node) ::
      && (forall x | x in adj(p) :: Sorted(x.node) && x.key == KeyOf(p) + [x.node.keyByte])
      && (forall i, j | 0 <= i < j < |adj(p)| :: adj(p)[i].node.keyByte < adj(p)[j].node.keyByte)
  }

  lemma KeysOfConcat<V>(a: seq<seq<RangePath<V>>>, b: seq<seq<RangePath<V>>>)
    ensures KeysOf(a + b) == KeysOf(a) + KeysOf(b)
  {
  }

  /** A walk with an orderly adjacency below a sorted node visits keys that extend that
      node's key, in strictly ascending order: a node's key is a prefix of its descendants'
      keys, and the subtries of its children come one after the other in ascending byte
      order. */
  lemma {:induction false} WalkAscending<V(!new)>(adj: seq<RangePath<V>> -> seq<RangePath<V>>, rank: seq<RangePath<V>> -> nat, p: seq<RangePath<V>>)
    requires forall p, x | x in adj(p) :: rank(p + [x]) < rank(p)
    requires Orderly(adj)
    requires p != [] && Sorted(p[|p| - 1].node)
    ensures var ks := KeysOf(Walk(p, adj, rank));
      (forall k | k in ks :: IsPrefix(KeyOf(p), k)) && StrictlyAscending(ks)
    decreases rank(p), 1
  {
    var xs := adj(p);
    var wa := WalkAll(p, xs, adj, rank);
    WalkAllAscending(adj, rank, p, xs);
    WalkUnfold(p, adj, rank);
    KeysOfConcat([p], wa);
    assert KeysOf([p]) == [KeyOf(p)];
    assert KeysOf(Walk(p, adj, rank)) == [KeyOf(p)] + KeysOf(wa);
    if xs != [] {
      HeadBelow(KeyOf(p), KeysOf(wa), xs[0].node.keyByte);
    } else {
      HeadBelow(KeyOf(p), KeysOf(wa), 0);
    }
  }

  lemma {:induction false} WalkAllAscending<V(!new)>(adj: seq<RangePath<V>> -> seq<RangePath<V>>, rank: seq<RangePath<V>> -> nat, p: seq<RangePath<V>>, xs: seq<RangePath<V>>)
    requires forall p, x | x in adj(p) :: rank(p + [x]) < rank(p)
    requires Orderly(adj)
    requires p != [] && Sorted(p[|p| - 1].node)
    requires forall x | x in xs :: x in adj(p)
    requires forall i, j | 0 <= i < j < |xs| :: xs[i].node.keyByte < xs[j].node.keyByte
    ensures var ks := KeysOf(WalkAll(p, xs, adj, rank));
      && (forall k | k in ks :: xs != [] && Beyond(KeyOf(p), k, xs[0].node.keyByte))
      && StrictlyAscending(ks)
    decreases rank(p), 0, |xs|
  {
    if xs != [] {
      var x0 := xs[0];
      var p1 := p + [x0];
      assert x0 in adj(p);
      assert Sorted(x0.node) && x0.key == KeyOf(p) + [x0.node.keyByte];
      assert KeyOf(p1) == KeyOf(p) + [x0.node.keyByte];
      WalkAscending(adj, rank, p1);
      var w1 := Walk(p1, adj, rank);
      var w2 := WalkAll(p, xs[1..], adj, rank);
      StepsTail(xs, adj(p));
      WalkAllAscending(adj, rank, p, xs[1..]);
      WalkAllUnfold(p, xs, adj, rank);
      KeysOfConcat(w1, w2);
      var hasNext := xs[1..] != [];
      var next := if hasNext then xs[1..][0].node.keyByte else 0;
      assert hasNext ==> x0.node.keyByte < next by {
        if hasNext {
          assert xs[1..][0] == xs[1];
        }
      }
      SiblingBlocks(KeyOf(p), x0.node.keyByte, hasNext, next, KeysOf(w1), KeysOf(w2));
    }
  }

  lemma StepsTail<V>(xs: seq<RangePath<V>>, offered: seq<RangePath<V>>)
    requires xs != [] && forall x | x in xs :: x in offered
    requires forall i, j | 0 <= i < j < |xs| :: xs[i].node.keyByte < xs[j].node.keyByte
    ensures forall x | x in xs[1..] :: x in offered
    ensures forall i, j | 0 <= i < j < |xs[1..]| :: xs[1..][i].node.keyByte < xs[1..][j].node.keyByte
  {
  }

  /** The keys below one child, followed by the keys below its greater siblings, ascend. */
  lemma SiblingBlocks(prefix: seq<byte>, b: byte, hasNext: bool, next: byte, ks1: seq<seq<byte>>, ks2: seq<seq<byte>>)
    requires forall k | k in ks1 :: IsPrefix(prefix + [b], k)
    requires forall k | k in ks2 :: hasNext && Beyond(prefix, k, next)
    requires hasNext ==> b < next
    requires StrictlyAscending(ks1) && StrictlyAscending(ks2)
    ensures forall k | k in ks1 + ks2 :: Beyond(prefix, k, b)
    ensures StrictlyAscending(ks1 + ks2)
  {
    if hasNext {
      BeyondLower(prefix, b, next, ks2);
    }
    Below(prefix, b, ks1);
    CrossLess(prefix, b, ks1, ks2);
    AscendingConcat(ks1, ks2);
  }

  /** The forward adjacency is orderly. */
  lemma ForwardOrderly<V(!new)>(bounds: Bounds)
    ensures Orderly(ForwardPathAdj<V>(bounds))
  {
    forall p: seq<RangePath<V>> | p != [] && Sorted(p[|p| - 1].node)
      ensures var xs := ForwardPathAdj<V>(bounds)(p);
        && (forall x | x in xs :: Sorted(x.node) && x.key == KeyOf(p) + [x.node.keyByte])
        && (forall i, j | 0 <= i < j < |xs| :: xs[i].node.keyByte < xs[j].node.keyByte)
    {
      ForwardStep(bounds, p);
    }
  }

  /** Range's forward traversal of a sorted trie visits its nodes in strictly ascending key
      order, starting at the root. */
  lemma ForwardVisitsAscending<V(!new)>(root: Trie<V>, bounds: Bounds)
    requires Sorted(root)
    ensures var vs := ForwardVisits(root, bounds);
      forall i, j | 0 <= i < j < |vs| :: Less(vs[i].key, vs[j].key)
  {
    ForwardRanked<V>(bounds);
    ForwardOrderly<V>(bounds);
    var w := PreOrder(RangePath(root, []), ForwardPathAdj(bounds), Rank);
    WalkAscending(ForwardPathAdj(bounds), Rank, [RangePath(root, [])]);
    ForwardPathsNonEmpty(root, bounds);
    var vs := ForwardVisits(root, bounds);
    forall i | 0 <= i < |vs|
      ensures vs[i].key == KeyOf(w[i])
    {
    }
  }

  /** k extends prefix by at least one byte, and that next byte is at least b. */
  predicate Beyond(prefix: seq<byte>, k: seq<byte>, b: byte)
  {
    |k| > |prefix| && IsPrefix(prefix, k) && b <= k[|prefix|]
  }

  /** k extends prefix by exactly the byte b and possibly more. */
  predicate Through(prefix: seq<byte>, k: seq<byte>, b: byte)
  {
    |k| > |prefix| && IsPrefix(prefix, k) && k[|prefix|] == b
  }

  lemma Below(prefix: seq<byte>, b: byte, ks: seq<seq<byte>>)
    requires forall k | k in ks :: IsPrefix(prefix + [b], k)
    ensures forall k | k in ks :: Through(prefix, k, b) && Beyond(prefix, k, b)
  {
    forall k | k in ks
      ensures Through(prefix, k, b)
    {
      var n := |prefix|;
      assert k[..n + 1] == prefix + [b];
      assert k[..n] == k[..n + 1][..n];
      assert k[n] == k[..n + 1][n];
    }
  }

  lemma BeyondLower(prefix: seq<byte>, a: byte, b: byte, ks: seq<seq<byte>>)
    requires a < b
    requires forall k | k in ks :: Beyond(prefix, k, b)
    ensures forall k | k in ks :: Beyond(prefix, k, a) && a < k[|prefix|]
  {
  }

  /** Keys that continue a common prefix with byte b are below keys that continue it with a
      greater byte. */
  lemma CrossLess(prefix: seq<byte>, b: byte, ks1: seq<seq<byte>>, ks2: seq<seq<byte>>)
    requires forall k | k in ks1 :: Through(prefix, k, b)
    requires forall k | k in ks2 :: Beyond(prefix, k, b) && b < k[|prefix|]
    ensures forall x, y | x in ks1 && y in ks2 :: Less(x, y)
  {
    forall x, y | x in ks1 && y in ks2
      ensures Less(x, y)
    {
      FirstDifference(x, y, |prefix|);
    }
  }

  /** A key followed by strictly ascending keys that all extend it is strictly ascending, and
      all of them extend it. */
  lemma HeadBelow(k0: seq<byte>, ks: seq<seq<byte>>, b: byte)
    requires StrictlyAscending(ks)
    requires forall k | k in ks :: Beyond(k0, k, b)
    ensures StrictlyAscending([k0] + ks)
    ensures forall k | k in [k0] + ks :: IsPrefix(k0, k)
  {
    PrefixReflexive(k0);
    forall k | k in ks
      ensures Less(k0, k)
    {
      PrefixIsLess(k0, k);
    }
    AscendingConcat([k0], ks);
  }

  /** Compare orders keys as Range expects: once a key is above the bounds, so is every
      greater key. */
  ghost predicate AboveIsFinal(bounds: Bounds)
  {
    forall a, b | Less(a, b) && bounds.compare(a) > 0 :: bounds.compare(b) > 0
  }

  /** childBounds never prunes a key within the bounds: at every proper prefix of such a
      key it admits the key's next byte. */
  ghost predicate AdmitsWithin(bounds: Bounds)
  {
    forall k, i | bounds.compare(k) == 0 && 0 <= i < |k| ::
      var cb := bounds.childBounds(k[..i]);
      cb.ok && cb.start <= k[i] <= cb.stop
  }

  /** When the visited keys ascend and Compare orders keys as Range expects, stopping at the
      first key above the bounds loses nothing: every visited terminal node within the
      bounds is among the yielded entries. */
  lemma SelectedComplete<V>(visits: seq<RangePath<V>>, bounds: Bounds, j: nat)
    requires forall i, i' | 0 <= i < i' < |visits| :: Less(visits[i].key, visits[i'].key)
    requires AboveIsFinal(bounds)
    requires j < |visits| && bounds.compare(visits[j].key) == 0 && visits[j].node.isTerminal
    ensures Entry(visits[j].key, visits[j].node.value) in Selected(visits[..FirstAbove(visits, bounds)], bounds)
  {
    forall i | 0 <= i < j
      ensures bounds.compare(visits[i].key) <= 0
    {
      assert Less(visits[i].key, visits[j].key);
    }
    var n := FirstAbove(visits, bounds);
    assert j < n;
    assert visits[..n][j] == visits[j];
    SelectedMembers(visits[..n], bounds);
  }

  /** A property of nodes, given as a map from keys to the nodes expected there, that holds
      at the root and that every forward step keeps, holds of every node Range visits for
      forward bounds. */
  lemma ForwardVisitsEndIn<V(!new)>(root: Trie<V>, bounds: Bounds, s: map<seq<byte>, Trie<V>>)
    requires [] in s && s[[]] == root
    requires forall p, x | EndsIn(s)(p) && x in ForwardPathAdj(bounds)(p) :: EndsIn(s)(p + [x])
    ensures forall v | v in ForwardVisits(root, bounds) :: v.key in s && v.node == s[v.key]
  {
    var inv := EndsIn(s);
    var adj := ForwardPathAdj<V>(bounds);
    ForwardRanked<V>(bounds);
    var start := RangePath(root, []);
    EndsInStep(s, [], start);
    WalkKeeps([start], adj, Rank, inv);
    var w := PreOrder(start, adj, Rank);
    var vs := ForwardVisits(root, bounds);
    forall v | v in vs
      ensures v.key in s && v.node == s[v.key]
    {
      var i :| 0 <= i < |vs| && vs[i] == v;
      var r := EndsInLast(s, w[i]);
    }
  }

  /** The path of the nodes recorded in s along the first m bytes of k, root first. */
  function PathAlong<V>(s: map<seq<byte>, Trie<V>>, k: seq<byte>, m: nat): (p: seq<RangePath<V>>)
    requires m <= |k| && forall i | 0 <= i <= |k| :: k[..i] in s
    ensures |p| == m + 1 && p[m] == RangePath(s[k[..m]], k[..m])
  {
    (if m == 0 then [] else PathAlong(s, k, m - 1)) + [RangePath(s[k[..m]], k[..m])]
  }

  /** When the forward adjacency offers, at every prefix of k, the node recorded at the next
      longer prefix, the path along k is generated from the root. */
  lemma {:induction false} PathAlongReaches<V(!new)>(bounds: Bounds, s: map<seq<byte>, Trie<V>>, k: seq<byte>, m: nat)
    requires m <= |k| && [] in s && forall i | 0 <= i <= |k| :: k[..i] in s
    requires forall i | 0 <= i < |k| :: RangePath(s[k[..i + 1]], k[..i + 1]) in ForwardAdj(bounds, RangePath(s[k[..i]], k[..i]))
    ensures Reaches([RangePath(s[[]], [])], ForwardPathAdj(bounds), PathAlong(s, k, m))
    decreases m
  {
    var p := PathAlong(s, k, m);
    if m == 0 {
      assert k[..0] == [];
      assert p == [RangePath(s[[]], [])];
    } else {
      PathAlongReaches(bounds, s, k, m - 1);
      var q := PathAlong(s, k, m - 1);
      assert DropLast(p) == q;
      var i := m - 1;
      assert Last(p) == RangePath(s[k[..i + 1]], k[..i + 1]);
      assert Last(p) in ForwardAdj(bounds, q[|q| - 1]);
      assert Last(p) in ForwardPathAdj(bounds)(DropLast(p));
    }
  }

  /** Under the same condition, Range's forward traversal visits the node recorded at k. */
  lemma ForwardVisitsAlong<V(!new)>(bounds: Bounds, s: map<seq<byte>, Trie<V>>, k: seq<byte>)
    requires [] in s && k in s && forall i | 0 <= i <= |k| :: k[..i] in s
    requires forall i | 0 <= i < |k| :: RangePath(s[k[..i + 1]], k[..i + 1]) in ForwardAdj(bounds, RangePath(s[k[..i]], k[..i]))
    ensures RangePath(s[k], k) in ForwardVisits(s[[]], bounds)
  {
    var adj := ForwardPathAdj<V>(bounds);
    ForwardRanked<V>(bounds);
    var start := RangePath(s[[]], []);
    var p := PathAlong(s, k, |k|);
    PathAlongReaches(bounds, s, k, |k|);
    ReachableInWalk([start], adj, Rank, p);
    ForwardVisitsHas(s[[]], bounds, p);
    assert k[..|k|] == k;
  }

  /** The last node of every path the forward traversal yields is a visited node. */
  lemma ForwardVisitsHas<V(!new)>(root: Trie<V>, bounds: Bounds, p: seq<RangePath<V>>)
    requires forall p: seq<RangePath<V>>, x | x in ForwardPathAdj(bounds)(p) :: Rank(p + [x]) < Rank(p)
    requires p in PreOrder(RangePath(root, []), ForwardPathAdj(bounds), Rank)
    ensures p != [] && p[|p| - 1] in ForwardVisits(root, bounds)
  {
    var w := PreOrder(RangePath(root, []), ForwardPathAdj(bounds), Rank);
    ForwardPathsNonEmpty(root, bounds);
    var i :| 0 <= i < |w| && w[i] == p;
    assert ForwardVisits(root, bounds)[i] == p[|p| - 1];
  }
}
