/** The pointer trie: a tree of heap nodes, one per key prefix that is stored or leads to a
    stored key. Every node keeps its children strictly ascending by key byte; a node holds a
    value only when it is terminal. The trie is the root node itself. */
module PointerTrie {
  import opened Bytes
  import opened Traversers
  import TrieRange

  /** Children strictly ascending by key byte, hence with distinct key bytes. */
  predicate ChildrenAscending<V(!new)>(cs: seq<Node<V>>)
  {
    forall i, j | 0 <= i < j < |cs| :: cs[i].keyByte < cs[j].keyByte
  }

  /** Inserting c at an insertion point of an ascending child sequence keeps it ascending. */
  lemma InsertAscending<V(!new)>(cs: seq<Node<V>>, index: nat, c: Node<V>)
    requires ChildrenAscending(cs) && index <= |cs|
    requires forall j | 0 <= j < index :: cs[j].keyByte < c.keyByte
    requires index < |cs| ==> c.keyByte < cs[index].keyByte
    ensures ChildrenAscending(cs[..index] + [c] + cs[index..])
  {
    var r := cs[..index] + [c] + cs[index..];
    forall i, j | 0 <= i < j < |r|
      ensures r[i].keyByte < r[j].keyByte
    {
      if j < index {
        assert r[i] == cs[i] && r[j] == cs[j];
      } else if j == index {
        assert r[i] == cs[i] && r[j] == c;
      } else if i == index {
        assert r[j] == cs[j - 1];
        assert cs[index].keyByte <= cs[j - 1].keyByte;
      } else if i < index {
        assert r[i] == cs[i] && r[j] == cs[j - 1];
      } else {
        assert r[i] == cs[i - 1] && r[j] == cs[j - 1];
      }
    }
  }

  /** Inserting y into cs keeps every element of cs. */
  lemma InsertKeeps<X>(cs: seq<X>, i: nat, y: X)
    requires i <= |cs|
    ensures forall x | x in cs :: x in cs[..i] + [y] + cs[i..]
  {
    assert cs == cs[..i] + cs[i..];
  }

  /** Removing the child at i keeps an ascending child sequence ascending, and keeps every
      child other than cs[i]. */
  lemma RemoveAscending<V(!new)>(cs: seq<Node<V>>, i: nat)
    requires ChildrenAscending(cs) && i < |cs|
    ensures ChildrenAscending(cs[..i] + cs[i + 1..])
    ensures forall c | c in cs && c != cs[i] :: c in cs[..i] + cs[i + 1..]
  {
    var r := cs[..i] + cs[i + 1..];
    forall a, b | 0 <= a < b < |r|
      ensures r[a].keyByte < r[b].keyByte
    {
      if b < i {
        assert r[a] == cs[a] && r[b] == cs[b];
      } else if a < i {
        assert r[a] == cs[a] && r[b] == cs[b + 1];
      } else {
        assert r[a] == cs[a + 1] && r[b] == cs[b + 1];
      }
    }
    assert cs == cs[..i] + [cs[i]] + cs[i + 1..];
  }

  /** The nodes of m outside the subtrie at top. */
  ghost function Without<V(!new)>(m: map<seq<byte>, Node<V>>, top: seq<byte>): map<seq<byte>, Node<V>>
  {
    map k | k in m && !IsPrefix(top, k) :: m[k]
  }

  /** A key under top has its one-byte extensions under top. */
  lemma PrefixOfChild(top: seq<byte>, k: seq<byte>, b: byte)
    requires IsPrefix(top, k)
    ensures IsPrefix(top, k + [b])
  {
    assert (k + [b])[..|top|] == k[..|top|];
  }

  /** A one-byte extension of k that lies on key at or below key[..d + 1] has k at key[..d] or
      below key[..d + 1]. */
  lemma ExtensionOnPath(key: seq<byte>, d: nat, k: seq<byte>, b: byte)
    requires d < |key|
    ensures IsPrefix(key[..d + 1], k + [b]) && IsPrefix(k + [b], key) ==> k == key[..d] || IsPrefix(key[..d + 1], k)
  {
    if IsPrefix(key[..d + 1], k + [b]) && IsPrefix(k + [b], key) {
      assert k == (k + [b])[..|k|] == key[..|k|];
      if |k| > d {
        assert k[..d + 1] == key[..d + 1];
      }
    }
  }

  /** m describes a subtrie whose top node sits at key top: every key of m extends top; each
      node sits at its own key; children are strictly ascending; every child of the node at k
      is the node of m at k extended by the child's key byte; and every node below the top is
      a child of the node at its parent key and carries the last byte of its key. Only the
      children fields are read: values and terminal flags do not affect the shape. */
  ghost predicate Shaped<V(!new)>(m: map<seq<byte>, Node<V>>, top: seq<byte>)
    reads m.Values`children
  {
    && top in m
    && (forall k | k in m :: IsPrefix(top, k))
    && (forall k | k in m :: m[k].path == k)
    && (forall k | k in m :: ChildrenAscending(m[k].children))
    && (forall k {:trigger ChildrenLinked(m, k)} | k in m :: ChildrenLinked(m, k))
    && (forall k {:trigger ParentLinked(m, k)} | k in m && |k| > |top| :: ParentLinked(m, k))
  }

  /** Every child of the node at k is the node of m at k extended by the child's key byte. */
  ghost predicate ChildrenLinked<V(!new)>(m: map<seq<byte>, Node<V>>, k: seq<byte>)
    reads m.Values`children
  {
    k in m &&
    forall i | 0 <= i < |m[k].children| ::
      var c := m[k].children[i];
      c.path == k + [c.keyByte] && c.path in m && m[c.path] == c
  }

  /** The node at k is a child of the node at its parent key and carries the last byte of k. */
  ghost predicate ParentLinked<V(!new)>(m: map<seq<byte>, Node<V>>, k: seq<byte>)
    reads m.Values`children
  {
    k in m && k != [] && DropLast(k) in m && m[k] in m[DropLast(k)].children && m[k].keyByte == Last(k)
  }

  /** The node at k holds a value or has children. */
  ghost predicate NotEmptyLeaf<V(!new)>(m: map<seq<byte>, Node<V>>, k: seq<byte>)
    reads m.Values`children, m.Values`isTerminal
  {
    k in m && (m[k].isTerminal || m[k].children != [])
  }

  /** No node below top is a non-terminal leaf. */
  ghost predicate NoEmptyLeaves<V(!new)>(m: map<seq<byte>, Node<V>>, top: seq<byte>)
    reads m.Values`children, m.Values`isTerminal
  {
    forall k {:trigger NotEmptyLeaf(m, k)} | k in m && |k| > |top| :: NotEmptyLeaf(m, k)
  }

  /** The entries the nodes of m hold: the key and value of every terminal node. */
  ghost function Entries<V(!new)>(m: map<seq<byte>, Node<V>>): map<seq<byte>, V>
    reads m.Values`isTerminal, m.Values`value
  {
    map k | k in m && m[k].isTerminal :: m[k].value
  }

  /** The entries of two node maps with disjoint keys are the entries of each. */
  lemma EntriesUnion<V(!new)>(m1: map<seq<byte>, Node<V>>, m2: map<seq<byte>, Node<V>>)
    requires m1.Keys !! m2.Keys
    ensures Entries(m1 + m2) == Entries(m1) + Entries(m2)
  {
  }

  /** A chain with one terminal node, at key, holding value, has exactly that entry. */
  lemma ChainEntries<V(!new)>(sub: map<seq<byte>, Node<V>>, key: seq<byte>, value: V)
    requires key in sub && sub[key].isTerminal && sub[key].value == value
    requires forall p | p in sub && p != key :: !sub[p].isTerminal
    ensures Entries(sub) == map[key := value]
  {
  }

  /** Adding a one-entry map is updating at its key. */
  lemma AddOne<X, Y>(m: map<X, Y>, k: X, v: Y)
    ensures m + map[k := v] == m[k := v]
  {
  }

  /** Assembles Shaped from its conjuncts. */
  lemma ShapedIntro<V(!new)>(m: map<seq<byte>, Node<V>>, top: seq<byte>)
    requires top in m
    requires forall k | k in m :: IsPrefix(top, k)
    requires forall k | k in m :: m[k].path == k
    requires forall k | k in m :: ChildrenAscending(m[k].children)
    requires forall k | k in m :: ChildrenLinked(m, k)
    requires forall k | k in m && |k| > |top| :: ParentLinked(m, k)
    ensures Shaped(m, top)
  {
  }

  /** A node above the top of a shaped subtrie, whose only child is that top, gives a shaped
      subtrie one level higher. */
  lemma ShapedUp<V(!new)>(m: map<seq<byte>, Node<V>>, top: seq<byte>, node: Node<V>)
    requires Shaped(m, top) && top != []
    requires m[top].keyByte == Last(top)
    requires node.path == DropLast(top) && node.children == [m[top]]
    ensures Shaped(m[DropLast(top) := node], DropLast(top))
  {
    var m' := m[DropLast(top) := node];
    ShapedUpKeys(m, top, node, m');
    ShapedUpLinks(m, top, node, m');
    ShapedUpChildren(m, top, node, m');
    ShapedIntro(m', DropLast(top));
  }

  lemma ShapedUpKeys<V(!new)>(m: map<seq<byte>, Node<V>>, top: seq<byte>, node: Node<V>, m': map<seq<byte>, Node<V>>)
    requires Shaped(m, top) && top != []
    requires node.path == DropLast(top) && node.children == [m[top]]
    requires m' == m[DropLast(top) := node]
    ensures forall k | k in m :: |k| > |DropLast(top)| && m[k] != node
    ensures forall k | k in m' :: IsPrefix(DropLast(top), k)
    ensures forall k | k in m' :: m'[k].path == k
    ensures forall k | k in m' :: ChildrenAscending(m'[k].children)
  {
    var up := DropLast(top);
    forall k | k in m
      ensures |k| > |up| && k[..|up|] == up && m[k] != node
    {
      assert k[..|up|] == k[..|top|][..|up|];
    }
  }

  lemma ShapedUpChildren<V(!new)>(m: map<seq<byte>, Node<V>>, top: seq<byte>, node: Node<V>, m': map<seq<byte>, Node<V>>)
    requires Shaped(m, top) && top != []
    requires m[top].keyByte == Last(top)
    requires node.path == DropLast(top) && node.children == [m[top]]
    requires m' == m[DropLast(top) := node]
    requires forall k | k in m :: |k| > |DropLast(top)|
    ensures forall k | k in m' :: ChildrenLinked(m', k)
  {
    assert top == DropLast(top) + [Last(top)];
    forall k | k in m'
      ensures ChildrenLinked(m', k)
    {
      if k != DropLast(top) {
        assert ChildrenLinked(m, k);
      }
    }
  }

  lemma ShapedUpLinks<V(!new)>(m: map<seq<byte>, Node<V>>, top: seq<byte>, node: Node<V>, m': map<seq<byte>, Node<V>>)
    requires Shaped(m, top) && top != []
    requires m[top].keyByte == Last(top)
    requires node.path == DropLast(top) && node.children == [m[top]]
    requires m' == m[DropLast(top) := node]
    requires forall k | k in m :: |k| > |DropLast(top)|
    ensures forall k | k in m' && |k| > |DropLast(top)| :: ParentLinked(m', k)
  {
    var up := DropLast(top);
    forall k | k in m' && |k| > |up|
      ensures ParentLinked(m', k)
    {
      if k != top {
        assert |k| > |top| && ParentLinked(m, k);
      }
    }
  }

  /** The path one byte below key[..i] on the way to key. */
  lemma TopSplit(key: seq<byte>, i: nat)
    requires i < |key|
    ensures key[..i + 1] == key[..i] + [key[i]]
    ensures DropLast(key[..i + 1]) == key[..i] && Last(key[..i + 1]) == key[i]
  {
  }

  /** sub is the chain Put builds for key from depth d down: a shaped subtrie rooted at
      key[..d] whose keys are all prefixes of key, whose node at key is terminal, and whose
      every other node is non-terminal with exactly one child. */
  ghost predicate Chain<V(!new)>(sub: map<seq<byte>, Node<V>>, key: seq<byte>, d: nat)
    reads sub.Values`children, sub.Values`isTerminal
  {
    && d <= |key|
    && Shaped(sub, key[..d])
    && (forall p | p in sub :: IsPrefix(p, key))
    && key in sub && sub[key].isTerminal
    && (forall p | p in sub && p != key :: !sub[p].isTerminal && |sub[p].children| == 1)
  }

  /** The lone terminal node at key is a chain from depth |key|. */
  lemma ChainStart<V(!new)>(sub: map<seq<byte>, Node<V>>, key: seq<byte>)
    requires sub.Keys == {key} && sub[key].path == key && sub[key].children == []
    requires sub[key].isTerminal
    ensures Chain(sub, key, |key|)
  {
    assert key[..|key|] == key;
    ShapedIntro(sub, key);
  }

  /** A non-terminal node at key[..d - 1] whose only child is the top of a chain from depth d
      extends it to a chain from depth d - 1. */
  lemma ChainStep<V(!new)>(sub: map<seq<byte>, Node<V>>, key: seq<byte>, d: nat, node: Node<V>)
    requires 1 <= d && Chain(sub, key, d) && sub[key[..d]].keyByte == key[d - 1]
    requires node.path == key[..d - 1] && node.children == [sub[key[..d]]] && !node.isTerminal
    ensures Chain(sub[key[..d - 1] := node], key, d - 1)
  {
    var top := key[..d];
    assert DropLast(top) == key[..d - 1] && Last(top) == key[d - 1];
    ShapedUp(sub, top, node);
    assert key[..d - 1] != key;
  }

  /** In a chain every node but the one at key has a child, and that one holds a value. */
  lemma ChainLeaves<V(!new)>(sub: map<seq<byte>, Node<V>>, key: seq<byte>, d: nat)
    requires Chain(sub, key, d)
    ensures forall p | p in sub :: NotEmptyLeaf(sub, p)
  {
    forall p | p in sub
      ensures NotEmptyLeaf(sub, p)
    {
      if p != key {
        assert sub[p].children != [];
      }
    }
  }

  /** A node whose key is shorter than d is not in a chain from depth d. */
  lemma ChainApart<V(!new)>(sub: map<seq<byte>, Node<V>>, key: seq<byte>, d: nat, n: Node<V>)
    requires Chain(sub, key, d) && |n.path| < d
    ensures n !in sub.Values
  {
    forall p | p in sub
      ensures sub[p] != n
    {
      assert IsPrefix(key[..d], p);
    }
  }

  /** A chain is a property of its nodes' children, flags and values alone. */
  twostate lemma ChainKept<V(!new)>(sub: map<seq<byte>, Node<V>>, new key: seq<byte>, new d: nat)
    requires old(Chain(sub, key, d))
    requires unchanged(sub.Values`children, sub.Values`isTerminal)
    ensures Chain(sub, key, d)
  {
  }

  /** One step of Put's inner loop: a fresh non-terminal node at key[..e] whose only child
      is the top of a chain from depth e + 1 extends it to a chain from depth e. */
  method ChainUp<V(!new)>(ghost sub: map<seq<byte>, Node<V>>, key: seq<byte>, e: nat, child: Node<V>, zero: V)
    returns (node: Node<V>, ghost sub': map<seq<byte>, Node<V>>)
    requires 0 < e < |key| && Chain(sub, key, e + 1) && sub[key[..e + 1]] == child && child.keyByte == key[e]
    ensures Chain(sub', key, e) && sub'[key] == sub[key]
    ensures sub'[key[..e]] == node && node.keyByte == key[e - 1]
  {
    node := new Node.Link(zero, [child], key[e - 1], false, zero, key[..e]);
    ChainStep(sub, key, e + 1, node);
    sub' := sub[key[..e] := node];
  }

  /** The bottom of the chain: a fresh terminal node at key holding value, with no children. */
  method ChainEnd<V(!new)>(key: seq<byte>, value: V, zero: V) returns (node: Node<V>, ghost sub: map<seq<byte>, Node<V>>)
    requires key != []
    ensures Chain(sub, key, |key|) && sub[key].value == value
    ensures sub[key[..|key|]] == node && node.keyByte == key[|key| - 1]
  {
    node := new Node.Link(value, [], key[|key| - 1], true, zero, key);
    sub := map[key := node];
    ChainStart(sub, key);
    assert key[..|key|] == key;
  }

  /** The chain Put hangs below the node at key[..i] when the key leaves the trie there: a
      fresh terminal node holding value at key, under a fresh non-terminal node with that one
      child at every prefix of key longer than i, built bottom-up as Put's inner loop does. */
  method NewChain<V(!new)>(key: seq<byte>, i: nat, value: V, zero: V) returns (child: Node<V>, ghost sub: map<seq<byte>, Node<V>>)
    requires i < |key|
    ensures Chain(sub, key, i + 1) && sub[key].value == value
    ensures sub[key[..i + 1]] == child && child.keyByte == key[i]
  {
    child, sub := ChainEnd(key, value, zero);
    var d := |key|;
    while d > i + 1
      invariant i + 1 <= d <= |key|
      invariant Chain(sub, key, d) && sub[key].value == value
      invariant sub[key[..d]] == child && child.keyByte == key[d - 1]
    {
      d := d - 1;
      child, sub := ChainUp(sub, key, d, child, zero);
    }
  }

  /** The keys of m at or below k. */
  ghost function Subtree<V(!new)>(m: map<seq<byte>, Node<V>>, k: seq<byte>): set<seq<byte>>
  {
    set q | q in m && IsPrefix(k, q)
  }

  /** The keys at or below a child key are strictly fewer than those at or below its parent
      key: they are among them, and the parent key itself is not one of them. */
  lemma SubtreeShrinks<V(!new)>(m: map<seq<byte>, Node<V>>, k: seq<byte>, b: byte)
    requires k in m
    ensures |Subtree(m, k + [b])| < |Subtree(m, k)|
  {
    var small, large := Subtree(m, k + [b]), Subtree(m, k);
    forall q | q in small
      ensures q in large
    {
      assert q[..|k|] == q[..|k| + 1][..|k|];
    }
    PrefixReflexive(k);
    ProperSubset(small, large, k);
  }

  lemma ProperSubset<X>(small: set<X>, large: set<X>, x: X)
    requires small <= large && x in large && x !in small
    ensures |small| < |large|
  {
    var rest := large - small;
    assert x in rest;
    assert large == small + rest && small * rest == {};
  }

  class Node<V(!new)> {
    /** Meaningful only while isTerminal holds. */
    var value: V
    var children: seq<Node<V>>
    const keyByte: byte
    var isTerminal: bool
    /** The zero value of V that Get, Put and Delete return when they report false. */
    const zero: V
    /** The key of this node: the key bytes on the way from the root to it. */
    ghost const path: seq<byte>
    /** On the root: the node at each key prefix that the trie has a node for. */
    ghost var NodeAt: map<seq<byte>, Node<V>>

    /** The shape every trie keeps: the root sits at the empty key and NodeAt is a shaped
        subtrie from there. */
    ghost predicate Valid()
      reads this`NodeAt, NodeAt.Values`children
    {
      Shaped(NodeAt, []) && NodeAt[[]] == this
    }

    /** No node other than the root is a non-terminal leaf: Put never creates one and Delete
        prunes the ones it would leave. */
    ghost predicate Compact()
      reads this`NodeAt, NodeAt.Values`children, NodeAt.Values`isTerminal
    {
      NoEmptyLeaves(NodeAt, [])
    }

    /** The stored entries: the key and value of every terminal node. */
    ghost function Contents(): map<seq<byte>, V>
      reads this`NodeAt, NodeAt.Values`isTerminal, NodeAt.Values`value
    {
      Entries(NodeAt)
    }

    /** NewPointerTrie: an empty trie, a lone non-terminal root holding the zero value. */
    constructor Empty(zero: V)
      ensures Valid() && Compact() && Contents() == map[]
      ensures NodeAt.Keys == {[]} && children == [] && !isTerminal && this.zero == zero
    {
      this.value := zero;
      this.children := [];
      this.keyByte := 0;
      this.isTerminal := false;
      this.zero := zero;
      this.path := [];
      new;
      this.NodeAt := map[[] := this];
    }

    /** A node built by Put below the point where the key leaves the trie. */
    constructor Link(value: V, children: seq<Node<V>>, keyByte: byte, isTerminal: bool, zero: V, ghost path: seq<byte>)
      ensures this.value == value && this.children == children && this.keyByte == keyByte
      ensures this.isTerminal == isTerminal && this.zero == zero && this.path == path
      ensures NodeAt == map[]
    {
      this.value := value;
      this.children := children;
      this.keyByte := keyByte;
      this.isTerminal := isTerminal;
      this.zero := zero;
      this.path := path;
      this.NodeAt := map[];
    }

    /** search: a linear scan of the children for byt. It reports the child's index when one
        has key byte byt; otherwise the insertion point, the index of the first child above
        byt (or the child count). Every child before the index is below byt. */
    method Search(byt: byte) returns (index: nat, found: bool)
      ensures index <= |children|
      ensures found ==> index < |children| && children[index].keyByte == byt
      ensures !found ==> index == |children| || byt < children[index].keyByte
      ensures forall j | 0 <= j < index :: children[j].keyByte < byt
      ensures !found && ChildrenAscending(children) ==> forall j | 0 <= j < |children| :: children[j].keyByte != byt
    {
      for i := 0 to |children|
        invariant forall j | 0 <= j < i :: children[j].keyByte < byt
      {
        var kb := children[i].keyByte;
        if byt == kb {
          return i, true;
        }
        if byt < kb {
          return i, false;
        }
      }
      return |children|, false;
    }

    /** The node set is closed under taking prefixes of keys. */
    lemma {:induction false} PrefixClosed(k: seq<byte>, m: nat)
      requires Valid()
      requires k in NodeAt && m <= |k|
      ensures k[..m] in NodeAt
      decreases |k|
    {
      if m < |k| {
        assert ParentLinked(NodeAt, k);
        PrefixClosed(DropLast(k), m);
        assert DropLast(k)[..m] == k[..m];
      } else {
        assert k[..m] == k;
      }
    }

    /** When the node at k[..m] has no child with key byte k[m], the trie has no node for any
        key that extends k[..m + 1], so no such key is stored. */
    lemma AbsentBelow(k: seq<byte>, m: nat)
      requires Valid()
      requires m < |k| && k[..m] in NodeAt
      requires forall j | 0 <= j < |NodeAt[k[..m]].children| :: NodeAt[k[..m]].children[j].keyByte != k[m]
      ensures forall q | q in NodeAt :: !IsPrefix(k[..m + 1], q)
      ensures k !in NodeAt && k !in Contents()
    {
      forall q | q in NodeAt
        ensures !IsPrefix(k[..m + 1], q)
      {
        if |q| > m {
          assert q[..m] == q[..m + 1][..m] && k[..m] == k[..m + 1][..m];
          assert q[m] == q[..m + 1][m] && k[m] == k[..m + 1][m];
          if q[..m] == k[..m] {
            PrefixClosed(q, m + 1);
            var p := q[..m + 1];
            assert DropLast(p) == k[..m];
            assert p != [] && p in NodeAt;
            assert ParentLinked(NodeAt, p);
            assert NodeAt[p] in NodeAt[k[..m]].children;
          }
        }
      }
      assert IsPrefix(k[..m + 1], k);
    }

    /** Get: walks down by the key's bytes; the key is found exactly when it is stored, and
        then the stored value is returned, otherwise the zero value. Nothing changes. */
    method Get(key: seq<byte>) returns (v: V, found: bool)
      requires Valid()
      ensures found <==> key in Contents()
      ensures v == if found then Contents()[key] else zero
    {
      var n := this;
      for i := 0 to |key|
        invariant key[..i] in NodeAt && NodeAt[key[..i]] == n
      {
        var index, ok := n.Search(key[i]);
        if !ok {
          AbsentBelow(key, i);
          return zero, false;
        }
        assert ChildrenLinked(NodeAt, key[..i]);
        assert key[..i + 1] == key[..i] + [key[i]];
        n := n.children[index];
      }
      assert key[..|key|] == key;
      if n.isTerminal {
        return n.value, true;
      }
      return zero, false;
    }

    /** The state just after Put grafts a shaped subtrie rooted at top below the node n at
        DropLast(top), at the insertion point index for Last(top), when the trie had no node
        at or below top: n gained that one child, NodeAt gained the subtrie, and no other
        node's children changed. */
    twostate predicate Grafted(n: Node<V>, new index: nat, new sub: map<seq<byte>, Node<V>>, new top: seq<byte>)
      reads this`NodeAt, NodeAt.Values`children, sub.Values`children
    {
      && old(Valid())
      && top != [] && DropLast(top) in old(NodeAt) && old(NodeAt[DropLast(top)]) == n
      && Shaped(sub, top) && sub[top].keyByte == Last(top)
      && (forall q | q in old(NodeAt) :: !IsPrefix(top, q))
      && index <= old(|n.children|)
      && (forall j | 0 <= j < index :: old(n.children[j]).keyByte < Last(top))
      && (index < old(|n.children|) ==> Last(top) < old(n.children[index]).keyByte)
      && NodeAt == old(NodeAt) + sub
      && n.children == old(n.children[..index]) + [sub[top]] + old(n.children[index..])
      && (forall k | k in old(NodeAt) && k != DropLast(top) :: old(NodeAt[k]).children == old(NodeAt[k].children))
    }

    twostate lemma GraftKeys(n: Node<V>, new index: nat, new sub: map<seq<byte>, Node<V>>, new top: seq<byte>)
      requires Grafted(n, index, sub, top)
      ensures forall p | p in sub :: p !in old(NodeAt) && |p| >= |top|
      ensures forall k | k in old(NodeAt) :: NodeAt[k] == old(NodeAt[k])
      ensures forall k | k in NodeAt :: IsPrefix([], k) && NodeAt[k].path == k
    {
    }

    twostate lemma GraftAscending(n: Node<V>, new index: nat, new sub: map<seq<byte>, Node<V>>, new top: seq<byte>)
      requires Grafted(n, index, sub, top)
      ensures forall k | k in NodeAt :: ChildrenAscending(NodeAt[k].children)
    {
      GraftKeys(n, index, sub, top);
      InsertAscending(old(n.children), index, sub[top]);
    }

    twostate lemma GraftChildren(n: Node<V>, new index: nat, new sub: map<seq<byte>, Node<V>>, new top: seq<byte>)
      requires top != [] && DropLast(top) in old(NodeAt) && old(NodeAt[DropLast(top)]) == n
      requires forall k | k in old(NodeAt) :: old(ChildrenLinked(NodeAt, k))
      requires forall k | k in sub :: ChildrenLinked(sub, k) && k !in old(NodeAt)
      requires top in sub && sub[top].path == top && sub[top].keyByte == Last(top)
      requires NodeAt == old(NodeAt) + sub
      requires forall k | k in old(NodeAt) && k != DropLast(top) :: old(NodeAt[k]).children == old(NodeAt[k].children)
      requires index <= old(|n.children|)
      requires n.children == old(n.children[..index]) + [sub[top]] + old(n.children[index..])
      ensures forall k | k in NodeAt :: ChildrenLinked(NodeAt, k)
    {
      var up := DropLast(top);
      assert top == up + [Last(top)];
      forall k | k in NodeAt
        ensures ChildrenLinked(NodeAt, k)
      {
        if k in sub {
          assert ChildrenLinked(sub, k);
        } else {
          assert old(ChildrenLinked(NodeAt, k));
          var cs := old(NodeAt[k].children);
          forall j | 0 <= j < |NodeAt[k].children|
            ensures var c := NodeAt[k].children[j];
              c.path == k + [c.keyByte] && c.path in NodeAt && NodeAt[c.path] == c
          {
            if k == up {
              if j < index {
                assert NodeAt[k].children[j] == cs[j];
              } else if j > index {
                assert NodeAt[k].children[j] == cs[j - 1];
              }
            } else {
              assert NodeAt[k].children == cs;
            }
          }
        }
      }
    }

    twostate lemma GraftLinks(n: Node<V>, new index: nat, new sub: map<seq<byte>, Node<V>>, new top: seq<byte>)
      requires Grafted(n, index, sub, top)
      ensures forall k | k in NodeAt && |k| > 0 :: ParentLinked(NodeAt, k)
    {
      GraftKeys(n, index, sub, top);
      var up := DropLast(top);
      InsertKeeps(old(n.children), index, sub[top]);
      forall k | k in NodeAt && |k| > 0
        ensures ParentLinked(NodeAt, k)
      {
        if k == top {
          assert NodeAt[up].children[index] == sub[top];
        } else if k in sub {
          assert ParentLinked(sub, k);
        } else {
          assert old(ParentLinked(NodeAt, k));
        }
      }
    }

    /** Grafting keeps the trie valid. */
    twostate lemma Graft(n: Node<V>, new index: nat, new sub: map<seq<byte>, Node<V>>, new top: seq<byte>)
      requires Grafted(n, index, sub, top)
      ensures Valid()
    {
      GraftKeys(n, index, sub, top);
      GraftAscending(n, index, sub, top);
      GraftChildren(n, index, sub, top);
      GraftLinks(n, index, sub, top);
      ShapedIntro(NodeAt, []);
    }

    /** Grafting a subtrie whose every node holds a value or has children keeps the trie
        compact. */
    twostate lemma GraftCompact(n: Node<V>, new sub: map<seq<byte>, Node<V>>, new top: seq<byte>)
      requires top != [] && DropLast(top) in old(NodeAt) && old(NodeAt[DropLast(top)]) == n
      requires forall k | k in sub :: NotEmptyLeaf(sub, k) && k !in old(NodeAt)
      requires NodeAt == old(NodeAt) + sub
      requires unchanged(old(NodeAt).Values`isTerminal)
      requires forall k | k in old(NodeAt) && k != DropLast(top) :: old(NodeAt[k]).children == old(NodeAt[k].children)
      requires n.children != []
      ensures old(Compact()) ==> Compact()
    {
      if old(Compact()) {
        forall k | k in NodeAt && |k| > 0
          ensures NotEmptyLeaf(NodeAt, k)
        {
          if k in sub {
            assert NotEmptyLeaf(sub, k);
          } else {
            assert old(NotEmptyLeaf(NodeAt, k));
          }
        }
      }
    }

    /** Grafting a subtrie whose one terminal node is at key, holding value, adds exactly
        that entry and keeps every other one. */
    twostate lemma GraftEntries(new sub: map<seq<byte>, Node<V>>, new key: seq<byte>, new value: V)
      requires forall k | k in sub :: k !in old(NodeAt)
      requires NodeAt == old(NodeAt) + sub
      requires unchanged(old(NodeAt).Values`isTerminal, old(NodeAt).Values`value)
      requires key in sub && sub[key].isTerminal && sub[key].value == value
      requires forall p | p in sub && p != key :: !sub[p].isTerminal
      ensures Contents() == old(Contents())[key := value]
    {
      EntriesUnion(old(NodeAt), sub);
      assert Entries(old(NodeAt)) == old(Entries(NodeAt));
      ChainEntries(sub, key, value);
      AddOne(old(Contents()), key, value);
    }

    /** Put's loop changes nothing, so whatever held of the trie on entry still holds. */
    twostate lemma Unmoved()
      requires old(Valid())
      requires NodeAt == old(NodeAt) && unchanged(old(NodeAt).Values)
      ensures Valid() && old(Compact()) == Compact() && old(Contents()) == Contents()
    {
      assert old(NodeAt[[]]) == this;
    }

    twostate lemma AssignedCompact(n: Node<V>, new key: seq<byte>, new value: V)
      requires old(Valid()) && key in old(NodeAt) && old(NodeAt[key]) == n
      requires NodeAt == old(NodeAt)
      requires unchanged(old(NodeAt).Values - {n}) && unchanged(n`children)
      requires n.isTerminal && n.value == value
      ensures Valid() && (old(Compact()) ==> Compact())
    {
      assert old(NodeAt[[]]) == this;
      if old(Compact()) {
        forall k | k in NodeAt && |k| > 0
          ensures NotEmptyLeaf(NodeAt, k)
        {
          assert old(NotEmptyLeaf(NodeAt, k));
        }
      }
    }

    twostate lemma AssignedEntries(n: Node<V>, new key: seq<byte>, new value: V)
      requires old(Valid()) && key in old(NodeAt) && old(NodeAt[key]) == n
      requires NodeAt == old(NodeAt)
      requires unchanged(old(NodeAt).Values - {n}) && unchanged(n`children)
      requires n.isTerminal && n.value == value
      ensures Contents() == old(Contents())[key := value]
    {
      assert forall k | k in NodeAt && k != key :: NodeAt[k] != n by {
        assert forall k | k in NodeAt :: NodeAt[k].path == k;
      }
    }

    /** Put's update of an existing node: setting the value of the node n at key, and marking
        it terminal, keeps the trie valid and compact and makes value key's entry, every other
        entry staying as it was; key had an entry before iff n was terminal, and it was n's
        value. */
    twostate lemma Assigned(n: Node<V>, new key: seq<byte>, new value: V)
      requires old(Valid()) && key in old(NodeAt) && old(NodeAt[key]) == n
      requires NodeAt == old(NodeAt)
      requires unchanged(old(NodeAt).Values - {n}) && unchanged(n`children)
      requires n.isTerminal && n.value == value
      ensures Valid() && (old(Compact()) ==> Compact())
      ensures Contents() == old(Contents())[key := value]
      ensures (key in old(Contents())) == old(n.isTerminal)
      ensures key in old(Contents()) ==> old(Contents())[key] == old(n.value)
    {
      AssignedCompact(n, key, value);
      AssignedEntries(n, key, value);
    }


    /** The state just after Put's insertion of a new child: the top of the chain sub, built
        for key below the node n at key[..i], went into n's children at the insertion point
        index, the later children moving up one place, and the chain's nodes joined the trie.
        The trie is still valid (and compact if it was), old paths keep their nodes, the new
        ones are the chain's, and exactly the entry for key was added. */
    twostate lemma Attached(n: Node<V>, new index: nat, new sub: map<seq<byte>, Node<V>>, new key: seq<byte>, new i: nat, new value: V)
      requires old(Valid())
      requires i < |key| && key[..i] in old(NodeAt) && old(NodeAt[key[..i]]) == n
      requires forall q | q in old(NodeAt) :: !IsPrefix(key[..i + 1], q)
      requires index <= old(|n.children|)
      requires forall j | 0 <= j < index :: old(n.children[j]).keyByte < key[i]
      requires index < old(|n.children|) ==> key[i] < old(n.children[index]).keyByte
      requires Chain(sub, key, i + 1) && sub[key].value == value && sub[key[..i + 1]].keyByte == key[i]
      requires n !in sub.Values
      requires NodeAt == old(NodeAt) + sub
      requires n.children == old(n.children[..index]) + [sub[key[..i + 1]]] + old(n.children[index..])
      requires unchanged((old(NodeAt).Values - {n})`children, old(NodeAt).Values`isTerminal, old(NodeAt).Values`value)
      ensures Valid() && (old(Compact()) ==> Compact())
      ensures forall k | k in old(NodeAt) :: k in NodeAt && NodeAt[k] == old(NodeAt[k])
      ensures forall k | k in NodeAt && k !in old(NodeAt) ::
        IsPrefix(k, key) && (k == key || (!NodeAt[k].isTerminal && |NodeAt[k].children| == 1))
      ensures Contents() == old(Contents())[key := value]
    {
      var top := key[..i + 1];
      TopSplit(key, i);
      assert forall k | k in old(NodeAt) && k != DropLast(top) :: old(NodeAt[k]).children == old(NodeAt[k].children) by {
        assert forall k | k in old(NodeAt) :: old(NodeAt[k].path) == k;
      }
      Graft(n, index, sub, top);
      GraftKeys(n, index, sub, top);
      ChainLeaves(sub, key, i + 1);
      GraftCompact(n, sub, top);
      GraftEntries(sub, key, value);
    }

    /** Put's insertion of the new chain sub, whose top is child, below n: see Attached. */
    method Attach(n: Node<V>, index: nat, child: Node<V>, ghost sub: map<seq<byte>, Node<V>>, key: seq<byte>, i: nat, value: V)
      requires Valid()
      requires i < |key| && key[..i] in NodeAt && NodeAt[key[..i]] == n
      requires forall q | q in NodeAt :: !IsPrefix(key[..i + 1], q)
      requires index <= |n.children|
      requires forall j | 0 <= j < index :: n.children[j].keyByte < key[i]
      requires index < |n.children| ==> key[i] < n.children[index].keyByte
      requires Chain(sub, key, i + 1) && sub[key].value == value
      requires sub[key[..i + 1]] == child && child.keyByte == key[i]
      modifies this`NodeAt, n`children
      ensures Valid() && (old(Compact()) ==> Compact())
      ensures forall k | k in old(NodeAt) :: k in NodeAt && NodeAt[k] == old(NodeAt[k])
      ensures forall k | k in NodeAt && k !in old(NodeAt) ::
        IsPrefix(k, key) && (k == key || (!NodeAt[k].isTerminal && |NodeAt[k].children| == 1))
      ensures Contents() == old(Contents())[key := value]
    {
      ChainApart(sub, key, i + 1, n);
      NodeAt := NodeAt + sub;
      n.children := n.children[..index] + [child] + n.children[index..];
      ChainKept(sub, key, i + 1);
      Attached(n, index, sub, key, i, value);
    }

    /** The end of Put once the key's node n exists: it takes value, reporting the previous
        value and true if n was terminal and (zero, false) otherwise; n becomes terminal. */
    method Assign(n: Node<V>, key: seq<byte>, value: V) returns (prev: V, existed: bool)
      requires Valid() && key in NodeAt && NodeAt[key] == n
      modifies n`value, n`isTerminal
      ensures Valid() && (old(Compact()) ==> Compact())
      ensures existed == (key in old(Contents()))
      ensures prev == if existed then old(Contents())[key] else zero
      ensures Contents() == old(Contents())[key := value]
    {
      if n.isTerminal {
        prev := n.value;
        n.value := value;
        Assigned(n, key, value);
        return prev, true;
      }
      n.value := value;
      n.isTerminal := true;
      Assigned(n, key, value);
      return zero, false;
    }

    /** Put: walks down by the key's bytes. Where the key leaves the trie it hangs a fresh
        chain of single-child non-terminal nodes ending in a terminal node with the value,
        inserted among the children at the insertion point, and reports (zero, false).
        When the key's node exists, it sets its value, reporting the previous value and true
        if the node was terminal and (zero, false) otherwise. Either way the entry for key
        becomes value and every other entry stays as it was. */
    method Put(key: seq<byte>, value: V) returns (prev: V, existed: bool)
      requires Valid()
      modifies this, NodeAt.Values
      ensures Valid() && (old(Compact()) ==> Compact())
      ensures existed == (key in old(Contents()))
      ensures prev == if existed then old(Contents())[key] else zero
      ensures Contents() == old(Contents())[key := value]
      ensures forall k | k in old(NodeAt) :: k in NodeAt && NodeAt[k] == old(NodeAt[k])
      ensures forall k | k in NodeAt && k !in old(NodeAt) ::
        IsPrefix(k, key) && (k == key || (!NodeAt[k].isTerminal && |NodeAt[k].children| == 1))
    {
      var n := this;
      for i := 0 to |key|
        invariant key[..i] in NodeAt && NodeAt[key[..i]] == n
        invariant NodeAt == old(NodeAt) && unchanged(old(NodeAt).Values)
      {
        var index, found := n.Search(key[i]);
        if !found {
          AbsentBelow(key, i);
          var child, sub := NewChain(key, i, value, zero);
          Unmoved();
          Attach(n, index, child, sub, key, i, value);
          return zero, false;
        }
        assert ChildrenLinked(NodeAt, key[..i]);
        assert key[..i + 1] == key[..i] + [key[i]];
        n := n.children[index];
      }
      assert key[..|key|] == key;
      Unmoved();
      prev, existed := Assign(n, key, value);
    }

    /** Below a childless node at key, and with a single child at every node strictly between
        depth pd and key, the only nodes at or below key[..pd + 1] are the ones on the path
        to key. */
    lemma {:induction false} PrunedPath(key: seq<byte>, pd: nat, k: seq<byte>)
      requires Valid() && pd < |key| && key in NodeAt && NodeAt[key].children == []
      requires forall j | pd < j < |key| :: key[..j] in NodeAt && |NodeAt[key[..j]].children| == 1
      requires k in NodeAt && IsPrefix(key[..pd + 1], k)
      ensures IsPrefix(k, key)
      decreases |k|
    {
      if |k| > pd + 1 {
        var p := DropLast(k);
        assert ParentLinked(NodeAt, k);
        assert p[..pd + 1] == k[..pd + 1];
        PrunedPath(key, pd, p);
        var j := |p|;
        assert key[..|key|] == key;
        assert p != key by {
          assert NodeAt[k] in NodeAt[p].children;
        }
        PrefixClosed(key, j + 1);
        var q := key[..j + 1];
        assert DropLast(q) == p;
        assert ParentLinked(NodeAt, q);
        assert NodeAt[q] == NodeAt[p].children[0] == NodeAt[k];
        assert NodeAt[q].path == q && NodeAt[k].path == k;
      }
    }

    /** Delete's pruning removes exactly the path to key below key[..pd], when key's node has
        no children: see PrunedPath. */
    lemma PrunedPaths(key: seq<byte>, pd: nat)
      requires Valid() && pd < |key| && key in NodeAt
      requires forall j | pd < j < |key| :: key[..j] in NodeAt && |NodeAt[key[..j]].children| == 1
      ensures NodeAt[key].children == [] ==> forall k | k in NodeAt && IsPrefix(key[..pd + 1], k) :: IsPrefix(k, key)
    {
      if NodeAt[key].children == [] {
        forall k | k in NodeAt && IsPrefix(key[..pd + 1], k)
          ensures IsPrefix(k, key)
        {
          PrunedPath(key, pd, k);
        }
      }
    }

    twostate lemma PruneKeys(new key: seq<byte>, new pd: nat)
      requires old(Valid()) && pd < |key|
      requires NodeAt == Without(old(NodeAt), key[..pd + 1])
      ensures [] in NodeAt && NodeAt[[]] == this && key !in NodeAt
      ensures forall k | k in NodeAt :: k in old(NodeAt) && NodeAt[k] == old(NodeAt[k])
      ensures forall k | k in NodeAt :: IsPrefix([], k) && NodeAt[k].path == k
    {
      assert IsPrefix(key[..pd + 1], key);
      assert !IsPrefix(key[..pd + 1], []);
    }

    twostate lemma PruneChildren(prune: Node<V>, new key: seq<byte>, new pd: nat, new pruneIndex: nat)
      requires old(Valid()) && pd < |key|
      requires key[..pd] in old(NodeAt) && old(NodeAt[key[..pd]]) == prune && key[..pd + 1] in old(NodeAt)
      requires pruneIndex < old(|prune.children|) && old(prune.children[pruneIndex]) == old(NodeAt[key[..pd + 1]])
      requires forall k | k in old(NodeAt) && IsPrefix(key[..pd + 1], k) :: IsPrefix(k, key)
      requires NodeAt == Without(old(NodeAt), key[..pd + 1])
      requires prune.children == old(prune.children[..pruneIndex] + prune.children[pruneIndex + 1..])
      requires unchanged((old(NodeAt).Values - {prune})`children)
      ensures forall k | k in NodeAt :: ChildrenAscending(NodeAt[k].children) && ChildrenLinked(NodeAt, k)
    {
      var cs := old(prune.children);
      RemoveAscending(cs, pruneIndex);
      assert key[..pd + 1] == key[..pd] + [key[pd]];
      forall k | k in NodeAt
        ensures ChildrenAscending(NodeAt[k].children) && ChildrenLinked(NodeAt, k)
      {
        assert old(ChildrenLinked(NodeAt, k));
        if k == key[..pd] {
          forall i | 0 <= i < |prune.children|
            ensures var c := prune.children[i];
              c.path == k + [c.keyByte] && c.path in NodeAt && NodeAt[c.path] == c
          {
            var i' := if i < pruneIndex then i else i + 1;
            var c := cs[i'];
            assert prune.children[i] == c;
            assert c.keyByte != cs[pruneIndex].keyByte;
            assert c.path != key[..pd + 1];
          }
        } else {
          assert old(NodeAt[k]).path == k;
          assert NodeAt[k].children == old(NodeAt[k].children);
          forall i | 0 <= i < |NodeAt[k].children|
            ensures var c := NodeAt[k].children[i];
              c.path == k + [c.keyByte] && c.path in NodeAt && NodeAt[c.path] == c
          {
            var c := NodeAt[k].children[i];
            ExtensionOnPath(key, pd, k, c.keyByte);
          }
        }
      }
    }

    twostate lemma PruneParents(prune: Node<V>, new key: seq<byte>, new pd: nat, new pruneIndex: nat)
      requires old(Valid()) && pd < |key|
      requires key[..pd] in old(NodeAt) && old(NodeAt[key[..pd]]) == prune && key[..pd + 1] in old(NodeAt)
      requires pruneIndex < old(|prune.children|) && old(prune.children[pruneIndex]) == old(NodeAt[key[..pd + 1]])
      requires NodeAt == Without(old(NodeAt), key[..pd + 1])
      requires prune.children == old(prune.children[..pruneIndex] + prune.children[pruneIndex + 1..])
      requires unchanged((old(NodeAt).Values - {prune})`children)
      ensures forall k | k in NodeAt && |k| > 0 :: ParentLinked(NodeAt, k)
    {
      RemoveAscending(old(prune.children), pruneIndex);
      forall k | k in NodeAt && |k| > 0
        ensures ParentLinked(NodeAt, k)
      {
        assert old(ParentLinked(NodeAt, k));
        var p := DropLast(k);
        assert k == p + [Last(k)];
        if IsPrefix(key[..pd + 1], p) {
          PrefixOfChild(key[..pd + 1], p, Last(k));
        }
        assert old(NodeAt[p]).path == p && old(NodeAt[k]).path == k;
      }
    }

    twostate lemma PruneCompact(prune: Node<V>, new key: seq<byte>, new pd: nat)
      requires old(Valid()) && pd < |key| && key in old(NodeAt)
      requires key[..pd] in old(NodeAt) && old(NodeAt[key[..pd]]) == prune
      requires pd > 0 ==> old(prune.isTerminal || |prune.children| > 1)
      requires NodeAt == Without(old(NodeAt), key[..pd + 1])
      requires |prune.children| + 1 == old(|prune.children|)
      requires unchanged((old(NodeAt).Values - {prune})`children)
      requires unchanged((old(NodeAt).Values - {old(NodeAt[key])})`isTerminal)
      ensures old(Compact()) ==> Compact()
    {
      if old(Compact()) {
        assert IsPrefix(key[..pd + 1], key);
        forall k | k in NodeAt && |k| > 0
          ensures NotEmptyLeaf(NodeAt, k)
        {
          assert old(NotEmptyLeaf(NodeAt, k));
          assert old(NodeAt[k]).path == k && old(NodeAt[key]).path == key && prune.path == key[..pd];
        }
      }
    }

    twostate lemma PruneEntries(new key: seq<byte>, new pd: nat)
      requires old(Valid()) && pd < |key| && key in old(NodeAt)
      requires forall j | pd < j < |key| :: key[..j] in old(NodeAt) && old(!NodeAt[key[..j]].isTerminal)
      requires forall k | k in old(NodeAt) && IsPrefix(key[..pd + 1], k) :: IsPrefix(k, key)
      requires NodeAt == Without(old(NodeAt), key[..pd + 1])
      requires unchanged((old(NodeAt).Values - {old(NodeAt[key])})`isTerminal, (old(NodeAt).Values - {old(NodeAt[key])})`value)
      ensures Contents() == old(Contents()) - {key}
    {
      assert IsPrefix(key[..pd + 1], key);
      assert forall k | k in NodeAt :: old(NodeAt[k]).path == k;
      forall k | k in old(NodeAt) && k != key && old(NodeAt[k].isTerminal)
        ensures k in NodeAt
      {
        assert IsPrefix(k, key) ==> key[..|k|] == k;
      }
    }

    /** Delete's removal of the path to key below the node prune at key[..pd], when key's node
        has no children: prune lost its child at pruneIndex, and NodeAt the subtrie below it.
        The trie stays valid (and compact if it was), the entry for key goes and every other
        entry stays. */
    twostate lemma Pruned(prune: Node<V>, new key: seq<byte>, new pd: nat, new pruneIndex: nat)
      requires old(Valid()) && pd < |key| && key in old(NodeAt)
      requires key[..pd] in old(NodeAt) && old(NodeAt[key[..pd]]) == prune && key[..pd + 1] in old(NodeAt)
      requires pruneIndex < old(|prune.children|) && old(prune.children[pruneIndex]) == old(NodeAt[key[..pd + 1]])
      requires pd > 0 ==> old(prune.isTerminal || |prune.children| > 1)
      requires forall j | pd < j < |key| :: key[..j] in old(NodeAt) && old(!NodeAt[key[..j]].isTerminal)
      requires forall k | k in old(NodeAt) && IsPrefix(key[..pd + 1], k) :: IsPrefix(k, key)
      requires NodeAt == Without(old(NodeAt), key[..pd + 1])
      requires prune.children == old(prune.children[..pruneIndex] + prune.children[pruneIndex + 1..])
      requires unchanged((old(NodeAt).Values - {prune})`children)
      requires unchanged((old(NodeAt).Values - {old(NodeAt[key])})`isTerminal, (old(NodeAt).Values - {old(NodeAt[key])})`value)
      ensures Valid() && (old(Compact()) ==> Compact())
      ensures Contents() == old(Contents()) - {key}
      ensures forall k | k in NodeAt :: k in old(NodeAt) && NodeAt[k] == old(NodeAt[k])
    {
      PruneKeys(key, pd);
      PruneChildren(prune, key, pd, pruneIndex);
      PruneParents(prune, key, pd, pruneIndex);
      ShapedIntro(NodeAt, []);
      PruneCompact(prune, key, pd);
      PruneEntries(key, pd);
    }

    twostate lemma ClearedCompact(n: Node<V>, new key: seq<byte>)
      requires old(Valid()) && key in old(NodeAt) && old(NodeAt[key]) == n
      requires NodeAt == old(NodeAt)
      requires unchanged(old(NodeAt).Values - {n}) && unchanged(n`children)
      requires key != [] ==> n.children != []
      ensures Valid() && (old(Compact()) ==> Compact())
    {
      assert old(NodeAt[[]]) == this;
      if old(Compact()) {
        forall k | k in NodeAt && |k| > 0
          ensures NotEmptyLeaf(NodeAt, k)
        {
          assert old(NotEmptyLeaf(NodeAt, k));
          assert old(NodeAt[k]).path == k;
        }
      }
    }

    twostate lemma ClearedEntries(n: Node<V>, new key: seq<byte>)
      requires old(Valid()) && key in old(NodeAt) && old(NodeAt[key]) == n
      requires NodeAt == old(NodeAt)
      requires unchanged(old(NodeAt).Values - {n}) && unchanged(n`children)
      requires !n.isTerminal
      ensures Contents() == old(Contents()) - {key}
    {
      assert forall k | k in NodeAt && k != key :: NodeAt[k] != n by {
        assert forall k | k in NodeAt :: NodeAt[k].path == k;
      }
    }

    /** Delete's clearing of the node n at key without removing it (it has children, or it is
        the root): the trie stays valid (and compact if it was), the entry for key goes and
        every other entry stays. */
    twostate lemma Cleared(n: Node<V>, new key: seq<byte>)
      requires old(Valid()) && key in old(NodeAt) && old(NodeAt[key]) == n
      requires NodeAt == old(NodeAt)
      requires unchanged(old(NodeAt).Values - {n}) && unchanged(n`children)
      requires !n.isTerminal && (key != [] ==> n.children != [])
      ensures Valid() && (old(Compact()) ==> Compact())
      ensures Contents() == old(Contents()) - {key}
    {
      ClearedCompact(n, key);
      ClearedEntries(n, key);
    }

    /** Delete's walk down to key[..i]: prune, at key[..pd], is the last node passed that is
        terminal or has several children, or the root when there is none; its child at
        pruneIndex leads towards key, and every node strictly between the two depths is
        non-terminal with exactly one child. */
    ghost predicate Anchored(key: seq<byte>, i: nat, prune: Node<V>, pruneIndex: nat, pd: nat)
      reads this`NodeAt, NodeAt.Values`children, NodeAt.Values`isTerminal
    {
      && i <= |key| && pd <= i && key[..pd] in NodeAt && NodeAt[key[..pd]] == prune
      && (pd == i ==> i == 0 && pruneIndex == 0)
      && (pd < i ==> key[..pd + 1] in NodeAt && pruneIndex < |prune.children| && prune.children[pruneIndex] == NodeAt[key[..pd + 1]])
      && (pd > 0 ==> prune.isTerminal || |prune.children| > 1)
      && (forall j | pd < j < i :: key[..j] in NodeAt && !NodeAt[key[..j]].isTerminal && |NodeAt[key[..j]].children| == 1)
    }

    /** One step of Delete's walk: from the node at key[..i] to its child at index, whose key
        byte is key[i]. The anchor moves to that node when it is terminal or has several
        children, and stays otherwise. */
    lemma AnchorStep(key: seq<byte>, i: nat, prune: Node<V>, pruneIndex: nat, pd: nat, index: nat)
      requires Valid() && i < |key| && Anchored(key, i, prune, pruneIndex, pd)
      requires key[..i] in NodeAt && index < |NodeAt[key[..i]].children| && NodeAt[key[..i]].children[index].keyByte == key[i]
      ensures key[..i + 1] in NodeAt && NodeAt[key[..i + 1]] == NodeAt[key[..i]].children[index]
      ensures var n := NodeAt[key[..i]];
        if n.isTerminal || |n.children| > 1 then Anchored(key, i + 1, n, index, i) else Anchored(key, i + 1, prune, pruneIndex, pd)
    {
      assert ChildrenLinked(NodeAt, key[..i]);
      assert key[..i + 1] == key[..i] + [key[i]];
    }

    /** Delete's walk down by the bytes of a non-empty key: it finds the node n at key, or
        reports that the path leaves the trie, in which case key is not stored. On the way
        it keeps the pruning anchor (see Anchored), updating it at every node passed that is
        terminal or has several children. Nothing changes. */
    method Walk(key: seq<byte>) returns (n: Node<V>, prune: Node<V>, pruneIndex: nat, ghost pd: nat, found: bool)
      requires Valid() && key != []
      ensures found ==> key in NodeAt && NodeAt[key] == n && Anchored(key, |key|, prune, pruneIndex, pd)
      ensures !found ==> key !in Contents()
    {
      prune, pruneIndex, pd := this, 0, 0;
      n := this;
      for i := 0 to |key|
        invariant key[..i] in NodeAt && NodeAt[key[..i]] == n
        invariant Anchored(key, i, prune, pruneIndex, pd)
      {
        var index, ok := n.Search(key[i]);
        if !ok {
          AbsentBelow(key, i);
          return n, prune, pruneIndex, pd, false;
        }
        AnchorStep(key, i, prune, pruneIndex, pd, index);
        if n.isTerminal || |n.children| > 1 {
          prune, pruneIndex := n, index;
          pd := i;
        }
        n := n.children[index];
      }
      assert key[..|key|] == key;
      found := true;
    }

    /** Delete of a key that is not stored changes nothing. */
    twostate lemma Absent(new key: seq<byte>)
      requires old(Valid()) && NodeAt == old(NodeAt) && unchanged(old(NodeAt).Values)
      requires key !in Contents()
      ensures Valid() && old(Compact()) == Compact()
      ensures key !in old(Contents()) && Contents() == old(Contents()) - {key}
      ensures forall k | k in NodeAt :: k in old(NodeAt) && NodeAt[k] == old(NodeAt[k])
    {
      Unmoved();
    }

    /** The end of Delete once the node n at the non-empty key is found terminal; prune is
        the node at key[..pd], the deepest node above n that is terminal or has several
        children (or the root), and its child at pruneIndex leads to key. n gives up its
        value and terminal flag, and when it has no children the whole single-child path
        from prune down to n is cut off at prune. */
    method Erase(n: Node<V>, key: seq<byte>, prune: Node<V>, pruneIndex: nat, ghost pd: nat) returns (prev: V)
      requires Valid() && key != [] && key in NodeAt && NodeAt[key] == n && n.isTerminal
      requires Anchored(key, |key|, prune, pruneIndex, pd)
      modifies this`NodeAt, prune`children, n`value, n`isTerminal
      ensures Valid() && (old(Compact()) ==> Compact())
      ensures key in old(Contents()) && prev == old(Contents())[key]
      ensures Contents() == old(Contents()) - {key}
      ensures forall k | k in NodeAt :: k in old(NodeAt) && NodeAt[k] == old(NodeAt[k])
      ensures !n.isTerminal && n.value == zero
    {
      PrunedPaths(key, pd);
      prev := n.value;
      n.value := zero;
      n.isTerminal := false;
      if |n.children| == 0 {
        prune.children := prune.children[..pruneIndex] + prune.children[pruneIndex + 1..];
        NodeAt := Without(NodeAt, key[..pd + 1]);
        Pruned(prune, key, pd, pruneIndex);
      } else {
        Cleared(n, key);
      }
    }

    /** Delete of the empty key: only the root's value and terminal flag can change. */
    method ClearRoot() returns (prev: V, existed: bool)
      requires Valid()
      modifies this`value, this`isTerminal
      ensures Valid() && (old(Compact()) ==> Compact())
      ensures existed == ([] in old(Contents()))
      ensures prev == if existed then old(Contents())[[]] else zero
      ensures Contents() == old(Contents()) - {[]}
      ensures NodeAt == old(NodeAt) && unchanged(old(NodeAt).Values`children)
      ensures !existed ==> unchanged(old(NodeAt).Values)
      ensures !isTerminal && (existed ==> value == zero)
    {
      if !isTerminal {
        return zero, false;
      }
      prev := value;
      value := zero;
      isTerminal := false;
      Cleared(this, []);
      return prev, true;
    }

    /** Delete: an empty key only clears the root's value and terminal flag. Otherwise it walks
        down by the key's bytes, remembering as prune the last node passed that is terminal
        or has several children (initially the root), with the index of the child taken from
        it. A missing path or a non-terminal node gives (zero, false) and no change; a stored
        key gives its value and true, its node loses value and flag, and a childless node is
        cut off together with the single-child path from prune that led only to it. The root
        is never removed, and a compact trie stays compact. */
    method Delete(key: seq<byte>) returns (prev: V, existed: bool)
      requires Valid()
      modifies this, NodeAt.Values
      ensures Valid() && (old(Compact()) ==> Compact())
      ensures existed == (key in old(Contents()))
      ensures prev == if existed then old(Contents())[key] else zero
      ensures Contents() == old(Contents()) - {key}
      ensures forall k | k in NodeAt :: k in old(NodeAt) && NodeAt[k] == old(NodeAt[k])
      ensures !existed ==> NodeAt == old(NodeAt) && unchanged(old(NodeAt).Values)
      ensures key == [] ==> NodeAt == old(NodeAt) && unchanged(old(NodeAt).Values`children)
    {
      if |key| == 0 {
        prev, existed := ClearRoot();
        return;
      }
      var n, prune, pruneIndex, pd, found := Walk(key);
      if !found || !n.isTerminal {
        Absent(key);
        return zero, false;
      }
      Unmoved();
      prev := Erase(n, key, prune, pruneIndex, pd);
      existed := true;
    }
    /** n is the trie's node at n's own key. */
    ghost predicate InTrie(n: Node<V>)
      reads this`NodeAt
    {
      n.path in NodeAt && NodeAt[n.path] == n
    }

    /** Every child of a node of the trie is the trie's node at the parent's key extended by
        the child's key byte. */
    lemma ChildInTrie(n: Node<V>, i: nat)
      requires Valid() && InTrie(n) && i < |n.children|
      ensures InTrie(n.children[i]) && n.children[i].path == n.path + [n.children[i].keyByte]
    {
      assert ChildrenLinked(NodeAt, n.path);
    }

    /** The subtrie at node n as a value, read from the heap: n's key byte, terminal flag and
        value, and the snapshot of each of its children in order. Range scans this value. */
    function Snap(n: Node<V>): (t: TrieRange.Trie<V>)
      requires Valid() && InTrie(n)
      reads this, NodeAt.Values
      ensures t.keyByte == n.keyByte && t.isTerminal == n.isTerminal && t.value == n.value
      ensures |t.children| == |n.children|
      decreases |Subtree(NodeAt, n.path)|, 1, 0
    {
      TrieRange.Trie(n.keyByte, SnapChildren(n, 0), n.isTerminal, n.value)
    }

    /** The snapshots of n's children from index i on. */
    function SnapChildren(n: Node<V>, i: nat): (ts: seq<TrieRange.Trie<V>>)
      requires Valid() && InTrie(n) && i <= |n.children|
      reads this, NodeAt.Values
      ensures |ts| == |n.children| - i
      decreases |Subtree(NodeAt, n.path)|, 0, |n.children| - i
    {
      if i == |n.children| then []
      else
        ChildInTrie(n, i);
        SubtreeShrinks(NodeAt, n.path, n.children[i].keyByte);
        [Snap(n.children[i])] + SnapChildren(n, i + 1)
    }

    /** The j-th child of a snapshot is the snapshot of the j-th child. */
    lemma {:induction false} SnapChildrenAt(n: Node<V>, i: nat, j: nat)
      requires Valid() && InTrie(n) && i <= j < |n.children|
      ensures InTrie(n.children[j])
      ensures SnapChildren(n, i)[j - i] == Snap(n.children[j])
      decreases j - i
    {
      ChildInTrie(n, j);
      if i < j {
        SnapChildrenAt(n, i + 1, j);
      }
    }

    /** The snapshot of any node of the trie is sorted: every node in it has its children
        strictly ascending by key byte. */
    lemma {:induction false} SnapSorted(n: Node<V>)
      requires Valid() && InTrie(n)
      ensures TrieRange.Sorted(Snap(n))
      decreases |Subtree(NodeAt, n.path)|
    {
      var t := Snap(n);
      forall i | 0 <= i < |t.children|
        ensures TrieRange.Sorted(t.children[i]) && t.children[i].keyByte == n.children[i].keyByte
      {
        SnapChildrenAt(n, 0, i);
        SubtreeShrinks(NodeAt, n.path, n.children[i].keyByte);
        ChildInTrie(n, i);
        SnapSorted(n.children[i]);
      }
      assert ChildrenAscending(n.children);
    }
    /** The snapshot of every node of the trie, by key. */
    ghost function Snaps(): map<seq<byte>, TrieRange.Trie<V>>
      requires Valid()
      reads this, NodeAt.Values
    {
      map k | k in NodeAt :: Snap(NodeAt[k])
    }

    /** Every step the forward adjacency offers from the snapshot of a trie node leads to the
        snapshot of the trie's node at the extended key. */
    lemma ForwardStepInTrie(bounds: TrieRange.Bounds, r: TrieRange.RangePath<V>, x: TrieRange.RangePath<V>)
      requires Valid() && r.key in NodeAt && r.node == Snap(NodeAt[r.key])
      requires x in TrieRange.ForwardAdj(bounds, r)
      ensures x.key in NodeAt && x.node == Snap(NodeAt[x.key])
    {
      TrieRange.ForwardAdjYields(bounds, r);
      var n := NodeAt[r.key];
      var i :| 0 <= i < |r.node.children| && r.node.children[i] == x.node;
      SnapChildrenAt(n, 0, i);
      ChildInTrie(n, i);
    }

    /** The forward adjacency keeps walks on the trie: a path ending at the snapshot of a
        trie node is only ever extended to the snapshot of another. */
    lemma ForwardKeepsSnaps(bounds: TrieRange.Bounds)
      requires Valid()
      ensures forall p, x | TrieRange.EndsIn(Snaps())(p) && x in TrieRange.ForwardPathAdj(bounds)(p) ::
        TrieRange.EndsIn(Snaps())(p + [x])
    {
      var s := Snaps();
      forall p, x | TrieRange.EndsIn(s)(p) && x in TrieRange.ForwardPathAdj(bounds)(p)
        ensures TrieRange.EndsIn(s)(p + [x])
      {
        var r := TrieRange.EndsInLast(s, p);
        assert s[r.key] == Snap(NodeAt[r.key]);
        ForwardStepInTrie(bounds, r, x);
        TrieRange.EndsInStep(s, p, x);
      }
    }

    /** For forward bounds, every node Range visits is the snapshot of the trie's node at its
        key. */
    lemma ForwardVisitsInTrie(bounds: TrieRange.Bounds)
      requires Valid()
      ensures forall v | v in TrieRange.ForwardVisits(Snap(this), bounds) :: v.key in NodeAt && v.node == Snap(NodeAt[v.key])
    {
      var s := Snaps();
      ForwardKeepsSnaps(bounds);
      assert s[[]] == Snap(this);
      TrieRange.ForwardVisitsEndIn(Snap(this), bounds, s);
    }
    /** For a stored key, at each of its proper prefixes whose child bounds admit the key's
        next byte, the forward adjacency offers the snapshot of the node at the next longer
        prefix. */
    lemma ForwardOffersChild(bounds: TrieRange.Bounds, k: seq<byte>, i: nat)
      requires Valid() && k in NodeAt && i < |k|
      requires var cb := bounds.childBounds(k[..i]); cb.ok && cb.start <= k[i] <= cb.stop
      ensures k[..i] in NodeAt && k[..i + 1] in NodeAt
      ensures TrieRange.RangePath(Snap(NodeAt[k[..i + 1]]), k[..i + 1])
        in TrieRange.ForwardAdj(bounds, TrieRange.RangePath(Snap(NodeAt[k[..i]]), k[..i]))
    {
      PrefixClosed(k, i);
      PrefixClosed(k, i + 1);
      var q := k[..i + 1];
      assert ParentLinked(NodeAt, q);
      assert DropLast(q) == k[..i];
      var n := NodeAt[k[..i]];
      var c := NodeAt[q];
      var j :| 0 <= j < |n.children| && n.children[j] == c;
      SnapChildrenAt(n, 0, j);
      var t := Snap(n);
      assert t.children[j] == Snap(c);
      assert c.keyByte == Last(q) == k[i];
      TrieRange.ForwardAdjOffers(bounds, TrieRange.RangePath(t, k[..i]), j);
      assert k[..i] + [Snap(c).keyByte] == q;
    }

    /** For forward bounds whose child bounds never prune a key within them, Range visits
        the node of every key of the trie within the bounds. */
    lemma ForwardVisitsWithin(bounds: TrieRange.Bounds, k: seq<byte>)
      requires Valid() && TrieRange.AdmitsWithin(bounds)
      requires k in NodeAt && bounds.compare(k) == 0
      ensures TrieRange.RangePath(Snap(NodeAt[k]), k) in TrieRange.ForwardVisits(Snap(this), bounds)
    {
      var s := Snaps();
      forall i | 0 <= i <= |k|
        ensures k[..i] in s
      {
        PrefixClosed(k, i);
      }
      forall i | 0 <= i < |k|
        ensures TrieRange.RangePath(s[k[..i + 1]], k[..i + 1]) in TrieRange.ForwardAdj(bounds, TrieRange.RangePath(s[k[..i]], k[..i]))
      {
        ForwardOffersChild(bounds, k, i);
      }
      assert s[[]] == Snap(this);
      TrieRange.ForwardVisitsAlong(bounds, s, k);
    }

    /** The entries Range yields for forward bounds: those of the terminal nodes within the
        bounds among the nodes preOrder visits before the first one above the bounds. */
    ghost function ForwardEntries(bounds: TrieRange.Bounds): seq<TrieRange.Entry<V>>
      requires Valid()
      reads this, NodeAt.Values
    {
      var vs := TrieRange.ForwardVisits(Snap(this), bounds);
      TrieRange.Selected(vs[..TrieRange.FirstAbove(vs, bounds)], bounds)
    }

    /** What Range yields for forward bounds is stored in the trie: each entry's key is
        within the bounds and stored with the entry's value. */
    lemma ForwardSound(bounds: TrieRange.Bounds, e: TrieRange.Entry<V>)
      requires Valid() && e in ForwardEntries(bounds)
      ensures bounds.compare(e.key) == 0 && e.key in Contents() && Contents()[e.key] == e.value
    {
      var vs := TrieRange.ForwardVisits(Snap(this), bounds);
      var cut := vs[..TrieRange.FirstAbove(vs, bounds)];
      TrieRange.SelectedMembers(cut, bounds);
      var p :| p in cut && p.key == e.key && p.node.isTerminal && p.node.value == e.value;
      ForwardVisitsInTrie(bounds);
      assert p in vs;
    }

    /** Range yields the entries for forward bounds in strictly ascending key order. */
    lemma ForwardAscending(bounds: TrieRange.Bounds)
      requires Valid()
      ensures var out := ForwardEntries(bounds);
        forall i, j | 0 <= i < j < |out| :: Less(out[i].key, out[j].key)
    {
      var vs := TrieRange.ForwardVisits(Snap(this), bounds);
      var cut := vs[..TrieRange.FirstAbove(vs, bounds)];
      SnapSorted(this);
      TrieRange.ForwardVisitsAscending(Snap(this), bounds);
      TrieRange.SelectedAscending(cut, bounds);
    }

    /** When Compare and childBounds agree as Range expects, Range for forward bounds misses
        no stored entry within the bounds. */
    lemma ForwardComplete(bounds: TrieRange.Bounds, k: seq<byte>)
      requires Valid() && TrieRange.AboveIsFinal(bounds) && TrieRange.AdmitsWithin(bounds)
      requires k in Contents() && bounds.compare(k) == 0
      ensures TrieRange.Entry(k, Contents()[k]) in ForwardEntries(bounds)
    {
      var vs := TrieRange.ForwardVisits(Snap(this), bounds);
      ForwardVisitsWithin(bounds, k);
      var j :| 0 <= j < |vs| && vs[j] == TrieRange.RangePath(Snap(NodeAt[k]), k);
      SnapSorted(this);
      TrieRange.ForwardVisitsAscending(Snap(this), bounds);
      TrieRange.SelectedComplete(vs, bounds, j);
    }

    /** The entries Range yields for bounds: those of the terminal nodes within the bounds
        among the nodes visited before the first one above the bounds, preOrder with
        forwardChildAdj for forward bounds and postOrder with reverseChildAdj for reverse
        bounds. */
    ghost function RangeEntries(bounds: TrieRange.Bounds, postOrder: TrieRange.PostOrder<V>): seq<TrieRange.Entry<V>>
      requires Valid()
      reads this, NodeAt.Values
    {
      var vs := TrieRange.Visits(Snap(this), bounds, postOrder);
      TrieRange.Selected(vs[..TrieRange.FirstAbove(vs, bounds)], bounds)
    }

    /** Every entry Range yields is within the bounds and comes from a visited terminal
        node with its key and value. */
    lemma RangeWithin(bounds: TrieRange.Bounds, postOrder: TrieRange.PostOrder<V>)
      requires Valid()
      ensures forall e | e in RangeEntries(bounds, postOrder) :: bounds.compare(e.key) == 0
    {
      var vs := TrieRange.Visits(Snap(this), bounds, postOrder);
      TrieRange.SelectedMembers(vs[..TrieRange.FirstAbove(vs, bounds)], bounds);
    }

    /** For forward bounds Range scans the nodes preOrder visits, so what it yields is
        stored in the trie, comes in strictly ascending key order and, when Compare and
        childBounds agree as Range expects, includes every stored entry within the bounds. */
    lemma RangeForward(bounds: TrieRange.Bounds, postOrder: TrieRange.PostOrder<V>)
      requires Valid() && !bounds.isReverse
      ensures var out := RangeEntries(bounds, postOrder);
        && (forall e | e in out :: e.key in Contents() && Contents()[e.key] == e.value)
        && (forall i, j | 0 <= i < j < |out| :: Less(out[i].key, out[j].key))
        && (TrieRange.AboveIsFinal(bounds) && TrieRange.AdmitsWithin(bounds) ==>
              forall k | k in Contents() && bounds.compare(k) == 0 :: TrieRange.Entry(k, Contents()[k]) in out)
    {
      var out := ForwardEntries(bounds);
      assert RangeEntries(bounds, postOrder) == out;
      forall e | e in out
        ensures e.key in Contents() && Contents()[e.key] == e.value
      {
        ForwardSound(bounds, e);
      }
      ForwardAscending(bounds);
      if TrieRange.AboveIsFinal(bounds) && TrieRange.AdmitsWithin(bounds) {
        forall k | k in Contents() && bounds.compare(k) == 0
          ensures TrieRange.Entry(k, Contents()[k]) in out
        {
          ForwardComplete(bounds, k);
        }
      }
    }

    /** Range, to a consumer that takes every entry: every entry is within the bounds. For
        forward bounds each entry is stored in the trie, they come in strictly ascending key
        order, and, when Compare and childBounds agree as Range expects, every stored entry
        within the bounds is among them. */
    method Range(bounds: TrieRange.Bounds, postOrder: TrieRange.PostOrder<V>) returns (entries: seq<TrieRange.Entry<V>>)
      requires Valid()
      ensures entries == RangeEntries(bounds, postOrder)
      ensures forall e | e in entries :: bounds.compare(e.key) == 0
      ensures !bounds.isReverse ==> forall e | e in entries :: e.key in Contents() && Contents()[e.key] == e.value
      ensures !bounds.isReverse ==> forall i, j | 0 <= i < j < |entries| :: Less(entries[i].key, entries[j].key)
      ensures !bounds.isReverse && TrieRange.AboveIsFinal(bounds) && TrieRange.AdmitsWithin(bounds) ==>
        forall k | k in Contents() && bounds.compare(k) == 0 :: TrieRange.Entry(k, Contents()[k]) in entries
    {
      var visits := TrieRange.Visits(Snap(this), bounds, postOrder);
      entries := TrieRange.Emit(visits, bounds);
      assert entries == RangeEntries(bounds, postOrder);
      RangeWithin(bounds, postOrder);
      if !bounds.isReverse {
        RangeForward(bounds, postOrder);
      }
    }
  }

  /** The fuzz tests' check after a Put: Get of the same key finds the value just put. */
  method PutThenGet<V(!new)>(t: Node<V>, key: seq<byte>, value: V) returns (v: V, found: bool)
    requires t.Valid()
    modifies t, t.NodeAt.Values
    ensures found && v == value
  {
    var prev, existed := t.Put(key, value);
    v, found := t.Get(key);
  }

  /** The fuzz tests' check after a Delete: Get of the same key finds nothing and gives
      the zero value. */
  method DeleteThenGet<V(!new)>(t: Node<V>, key: seq<byte>) returns (v: V, found: bool)
    requires t.Valid()
    modifies t, t.NodeAt.Values
    ensures !found && v == t.zero
  {
    var prev, existed := t.Delete(key);
    v, found := t.Get(key);
  }
}
