/**
 * The trie of src/TrieIndex.kt over the heap: branch nodes holding an
 * array of 26 child slots, leaves holding a mutable bucket of values, and
 * the index object that files values under their words and looks them up.
 *
 * The index keeps a ghost picture of its nodes, indexed by the path of
 * slot offsets that leads to them from the root (Nodes, Leaves), the
 * buckets the leaves hold (Index) and the values added so far (Added).
 * Shape() ties the picture to the arrays and leaves; Valid() adds that the
 * buckets are the ones TrieSpec.Expected prescribes for Added.
 *
 * The heap-changing steps of putWordMatch (DescendElem, DescendLeaf,
 * AddToLeaf) are module-level methods that take the picture as ghost
 * parameters, and the class methods StepElem, StepLeaf and FileValue only
 * call them and store the new picture: proved inside the class, against
 * its ghost fields, these steps cost the verifier several times more.
 */
module TrieIndex {
  import opened Wrappers
  import opened TextUtils
  import opened SetUtils
  import opened TrieSpec

  /** A non-empty child slot: a branch node or a leaf. */
  datatype Child = Elem(elem: TrieElem) | Leaf(leaf: TrieLeaf)

  /** TrieLeaf: a bucket of values. */
  class TrieLeaf {
    var values: set<string>

    constructor ()
      ensures values == {}
    {
      values := {};
    }

    /** add: puts v in the bucket and tells whether it was new. */
    method Add(v: string) returns (added: bool)
      modifies this
      ensures values == old(values) + {v}
      ensures added <==> v !in old(values)
    {
      added := v !in values;
      values := values + {v};
    }
  }

  /** TrieElem: a branch node with one slot per offset. */
  class TrieElem {
    const children: array<Option<Child>>

    /** A node whose slots are all empty. */
    constructor ()
      ensures fresh(children)
      ensures children.Length == Slots
      ensures forall i :: 0 <= i < Slots ==> children[i] == None
    {
      children := new Option<Child>[Slots](_ => None);
    }

    /** get: the child in slot i, if any. */
    function Get(i: int): (c: Option<Child>)
      requires 0 <= i < children.Length
      reads children
    {
      children[i]
    }

    /** getOrCreate: the child in slot i; an empty slot first receives a
        new leaf when leaf holds, a new branch node otherwise. */
    method GetOrCreate(i: int, leaf: bool) returns (c: Child)
      requires 0 <= i < children.Length
      modifies children
      ensures old(children[i]).Some? ==> c == old(children[i]).value && children[..] == old(children[..])
      ensures old(children[i]).None? ==> children[..] == old(children[..])[i := Some(c)]
      ensures old(children[i]).None? && leaf ==> c.Leaf? && fresh(c.leaf) && c.leaf.values == {}
      ensures old(children[i]).None? && !leaf ==>
                c.Elem? && fresh(c.elem) && fresh(c.elem.children) && c.elem.children.Length == Slots &&
                forall k :: 0 <= k < Slots ==> c.elem.children[k] == None
    {
      match children[i]
      case Some(child) =>
        c := child;
      case None =>
        if leaf {
          var l := new TrieLeaf();
          c := Leaf(l);
        } else {
          var e := new TrieElem();
          c := Elem(e);
        }
        children[i] := Some(c);
    }
  }

  /** Every offset of p names a slot. */
  ghost predicate InAlphabet(p: seq<int>) {
    forall k :: 0 <= k < |p| ==> 0 <= p[k] < Slots
  }

  /** The path of the node one step nearer the root. */
  function Parent(p: seq<int>): seq<int>
    requires p != []
  {
    p[..|p| - 1]
  }

  /** The paths of a trie of depth d: branch nodes at depth at most d,
      leaves at depth d + 1, and the parent of either a branch node. */
  ghost predicate Paths(nodes: set<seq<int>>, leaves: set<seq<int>>, d: nat) {
    && [] in nodes
    && (forall p {:trigger p in nodes} :: p in nodes ==> |p| <= d && InAlphabet(p))
    && (forall p {:trigger Parent(p)} :: p in nodes && p != [] ==> Parent(p) in nodes)
    && (forall q {:trigger q in leaves} :: q in leaves ==> |q| == d + 1 && InAlphabet(q) && Parent(q) in nodes)
  }

  /** Two one-step extensions agree exactly when their parts do. */
  lemma ChildPath(p: seq<int>, i: int, p': seq<int>, i': int)
    ensures p + [i] == p' + [i'] <==> p == p' && i == i'
  {
    if p + [i] == p' + [i'] {
      assert p == (p + [i])[..|p|] && p' == (p' + [i'])[..|p'|];
      assert i == (p + [i])[|p|];
    }
  }

  /** Every prefix of a branch node's path is a branch node. */
  lemma {:induction false} NodePrefix(nodes: set<seq<int>>, leaves: set<seq<int>>, d: nat, p: seq<int>, k: nat)
    requires Paths(nodes, leaves, d) && p in nodes && k <= |p|
    ensures p[..k] in nodes
    decreases |p|
  {
    if k < |p| {
      NodePrefix(nodes, leaves, d, Parent(p), k);
      assert Parent(p)[..k] == p[..k];
    } else {
      assert p[..k] == p;
    }
  }

  /** Every proper prefix of a leaf's path is a branch node. */
  lemma LeafPrefix(nodes: set<seq<int>>, leaves: set<seq<int>>, d: nat, q: seq<int>, k: nat)
    requires Paths(nodes, leaves, d) && q in leaves && k <= d
    ensures q[..k] in nodes
  {
    NodePrefix(nodes, leaves, d, Parent(q), k);
    assert Parent(q)[..k] == q[..k];
  }

  /** What the slot leading to path q holds in a trie with these nodes
      and leaves. */
  function SlotOf(nodes: map<seq<int>, TrieElem>, leaves: map<seq<int>, TrieLeaf>, q: seq<int>): Option<Child> {
    if q in nodes then Some(Elem(nodes[q]))
    else if q in leaves then Some(Leaf(leaves[q]))
    else None
  }

  /** Below a path that is not a node there is neither a node nor a leaf. */
  lemma ChildOfMissing(nodes: set<seq<int>>, leaves: set<seq<int>>, d: nat, q: seq<int>, i: int)
    requires Paths(nodes, leaves, d) && q !in nodes && |q| <= d
    ensures q + [i] !in nodes && q + [i] !in leaves
  {
    assert Parent(q + [i]) == q;
  }

  /** No bucket lies below a path that is neither a node nor a leaf. */
  lemma NothingBelowMissing(nodes: set<seq<int>>, leaves: set<seq<int>>, m: map<seq<int>, set<string>>, d: nat, p: seq<int>)
    requires Paths(nodes, leaves, d) && m.Keys <= leaves
    requires |p| <= d + 1 && p !in nodes && p !in leaves
    ensures Below(m, p) == {}
  {
    forall q | q in m ensures !(p <= q) {
      if |p| <= d {
        LeafPrefix(nodes, leaves, d, q, |p|);
        assert q[..|p|] != p;
      } else {
        assert q != p;
      }
    }
  }

  /** A new branch node one step below a branch node above the leaf level
      keeps the paths well formed. */
  lemma GrowElemPaths(nodes: set<seq<int>>, leaves: set<seq<int>>, d: nat, p: seq<int>, o: int)
    requires Paths(nodes, leaves, d) && p in nodes && |p| < d && 0 <= o < Slots
    ensures Paths(nodes + {p + [o]}, leaves, d)
  {
    assert Parent(p + [o]) == p;
  }

  /** A new leaf one step below a branch node at the leaf level keeps the
      paths well formed. */
  lemma GrowLeafPaths(nodes: set<seq<int>>, leaves: set<seq<int>>, d: nat, p: seq<int>, o: int)
    requires Paths(nodes, leaves, d) && p in nodes && |p| == d && 0 <= o < Slots
    ensures Paths(nodes, leaves + {p + [o]}, d)
  {
    assert Parent(p + [o]) == p;
  }

  /** The arrays and leaves of the picture lie in repr, each at one path only. */
  ghost predicate Registered(nodes: map<seq<int>, TrieElem>, leaves: map<seq<int>, TrieLeaf>, repr: set<object>) {
    && (forall p :: p in nodes ==> nodes[p].children in repr)
    && (forall q :: q in leaves ==> leaves[q] in repr)
    && (forall p, p' {:trigger nodes[p].children, nodes[p'].children} :: p in nodes && p' in nodes && nodes[p].children == nodes[p'].children ==> p == p')
    && (forall q, q' :: q in leaves && q' in leaves && leaves[q] == leaves[q'] ==> q == q')
  }

  /** Registering the array of a new branch node at a new path. */
  lemma RegisterElem(nodes: map<seq<int>, TrieElem>, leaves: map<seq<int>, TrieLeaf>, repr: set<object>,
                     q: seq<int>, e: TrieElem)
    requires Registered(nodes, leaves, repr) && q !in nodes && e.children !in repr
    ensures Registered(nodes[q := e], leaves, repr + {e.children})
  {
  }

  /** Registering a new leaf at a new path. */
  lemma RegisterLeaf(nodes: map<seq<int>, TrieElem>, leaves: map<seq<int>, TrieLeaf>, repr: set<object>,
                     q: seq<int>, l: TrieLeaf)
    requires Registered(nodes, leaves, repr) && q !in leaves && l !in repr
    ensures Registered(nodes, leaves[q := l], repr + {l})
  {
  }

  /** A new branch node at q = p + [o] fills that slot of p, has nothing
      below it, and leaves every other slot as it was. */
  lemma SlotGrowElem(nodes: map<seq<int>, TrieElem>, leaves: map<seq<int>, TrieLeaf>, d: nat, p: seq<int>, o: int, e: TrieElem)
    requires Paths(nodes.Keys, leaves.Keys, d) && |p| < d && 0 <= o < Slots
    requires p + [o] !in nodes && p + [o] !in leaves
    ensures forall i :: SlotOf(nodes[p + [o] := e], leaves, p + [o] + [i]) == None
    ensures forall p', i :: p' + [i] != p + [o] && p' != p + [o] ==>
              SlotOf(nodes[p + [o] := e], leaves, p' + [i]) == SlotOf(nodes, leaves, p' + [i])
  {
    forall i ensures SlotOf(nodes[p + [o] := e], leaves, p + [o] + [i]) == None {
      ChildOfMissing(nodes.Keys, leaves.Keys, d, p + [o], i);
    }
  }

  /** The bookkeeping of a trie of depth d rooted at root. */
  ghost predicate Wf(d: nat, root: TrieElem, nodes: map<seq<int>, TrieElem>, leaves: map<seq<int>, TrieLeaf>,
                     index: map<seq<int>, set<string>>, repr: set<object>) {
    && d > 0
    && Paths(nodes.Keys, leaves.Keys, d)
    && nodes[[]] == root
    && Registered(nodes, leaves, repr)
    && index.Keys <= leaves.Keys
  }

  /** The arrays and leaves in the heap hold what the picture says. */
  ghost predicate Mirrored(nodes: map<seq<int>, TrieElem>, leaves: map<seq<int>, TrieLeaf>,
                           index: map<seq<int>, set<string>>, repr: set<object>)
    reads repr
    requires Registered(nodes, leaves, repr)
  {
    && (forall p :: p in nodes ==> nodes[p].children.Length == Slots)
    && (forall p, i {:trigger nodes[p].children[i]} :: p in nodes && 0 <= i < Slots ==> nodes[p].children[i] == SlotOf(nodes, leaves, p + [i]))
    && (forall q :: q in leaves ==> leaves[q].values == Bucket(index, q))
  }

  /** One more offset read extends the prefix of the padded path. */
  lemma PathStep(w: string, d: nat, p: seq<int>, i: nat, o: int)
    requires i <= d && p == PaddedPath(w, d)[..i] && OffsetAt(w, i) == Some(o)
    ensures p + [o] == PaddedPath(w, d)[..i + 1]
    ensures i == d ==> p + [o] == PaddedPath(w, d)
  {
    var path := PaddedPath(w, d);
    assert path[..i + 1] == path[..i] + [path[i]];
  }

  /** getOrCreate with the branch-node factory at slot o of the branch
      node n at path p, and the picture of the trie after it. */
  method DescendElem(n: TrieElem, o: int, ghost d: nat, ghost root: TrieElem, ghost p: seq<int>,
                     ghost nodes: map<seq<int>, TrieElem>, ghost leaves: map<seq<int>, TrieLeaf>,
                     ghost index: map<seq<int>, set<string>>, ghost repr: set<object>)
    returns (e: TrieElem, ghost nodes': map<seq<int>, TrieElem>, ghost repr': set<object>)
    requires Wf(d, root, nodes, leaves, index, repr) && Mirrored(nodes, leaves, index, repr)
    requires p in nodes && nodes[p] == n && |p| < d && 0 <= o < Slots
    modifies n.children
    ensures Wf(d, root, nodes', leaves, index, repr') && Mirrored(nodes', leaves, index, repr')
    ensures nodes' == nodes[p + [o] := e] && e.children in repr' && repr <= repr' && fresh(repr' - repr)
  {
    ghost var q := p + [o];
    var c := n.GetOrCreate(o, false);
    e := c.elem;
    if q !in nodes {
      SlotGrowElem(nodes, leaves, d, p, o, e);
      GrowElemPaths(nodes.Keys, leaves.Keys, d, p, o);
      RegisterElem(nodes, leaves, repr, q, e);
      nodes', repr' := nodes[q := e], repr + {e.children};
      forall p', i | p' in nodes' && 0 <= i < Slots ensures nodes'[p'].children[i] == SlotOf(nodes', leaves, p' + [i]) {
        if p' != p && p' != q {
          assert nodes[p'].children != n.children;
        }
        ChildPath(p', i, p, o);
      }
    } else {
      nodes', repr' := nodes, repr;
      assert nodes[q := e] == nodes;
    }
  }

  /** getOrCreate with the leaf factory at slot o of the branch node n at
      path p on the leaf level, and the picture of the trie after it. */
  method DescendLeaf(n: TrieElem, o: int, ghost d: nat, ghost root: TrieElem, ghost p: seq<int>,
                     ghost nodes: map<seq<int>, TrieElem>, ghost leaves: map<seq<int>, TrieLeaf>,
                     ghost index: map<seq<int>, set<string>>, ghost repr: set<object>)
    returns (l: TrieLeaf, ghost leaves': map<seq<int>, TrieLeaf>, ghost repr': set<object>)
    requires Wf(d, root, nodes, leaves, index, repr) && Mirrored(nodes, leaves, index, repr)
    requires p in nodes && nodes[p] == n && |p| == d && 0 <= o < Slots
    modifies n.children
    ensures Wf(d, root, nodes, leaves', index, repr') && Mirrored(nodes, leaves', index, repr')
    ensures leaves' == leaves[p + [o] := l] && l in repr' && repr <= repr' && fresh(repr' - repr)
  {
    ghost var q := p + [o];
    var c := n.GetOrCreate(o, true);
    l := c.leaf;
    if q !in leaves {
      GrowLeafPaths(nodes.Keys, leaves.Keys, d, p, o);
      RegisterLeaf(nodes, leaves, repr, q, l);
      assert q !in index;
      leaves', repr' := leaves[q := l], repr + {l};
      forall p', i | p' in nodes && 0 <= i < Slots ensures nodes[p'].children[i] == SlotOf(nodes, leaves', p' + [i]) {
        if p' != p {
          assert nodes[p'].children != n.children;
        }
        ChildPath(p', i, p, o);
      }
    } else {
      leaves', repr' := leaves, repr;
      assert leaves[q := l] == leaves;
    }
  }

  /** Adds value to the bucket of the leaf l at path q, and tells whether
      it was new there. */
  method AddToLeaf(l: TrieLeaf, ghost q: seq<int>, value: string, ghost d: nat, ghost root: TrieElem,
                   ghost nodes: map<seq<int>, TrieElem>, ghost leaves: map<seq<int>, TrieLeaf>,
                   ghost index: map<seq<int>, set<string>>, ghost repr: set<object>)
    returns (isNew: bool)
    requires Wf(d, root, nodes, leaves, index, repr) && Mirrored(nodes, leaves, index, repr)
    requires q in leaves && leaves[q] == l
    modifies l
    ensures Wf(d, root, nodes, leaves, Put(index, q, value), repr) && Mirrored(nodes, leaves, Put(index, q, value), repr)
    ensures isNew <==> value !in Bucket(index, q)
  {
    isNew := l.Add(value);
    ghost var index' := Put(index, q, value);
    forall q' | q' in leaves ensures leaves[q'].values == Bucket(index', q') {
      if q' != q {
        assert leaves[q'] != l;
      }
    }
  }

  /** The offsets of positions 0..d of w that offsetAt reads all succeed. */
  predicate PathLetters(w: string, d: nat) {
    forall i :: 0 <= i <= d && i < |w| ==> IsLetter(w[i])
  }

  /** Filing values under their words and finding them again. */
  class TrieIndex {
    const depth: nat
    const root: TrieElem

    ghost var Nodes: map<seq<int>, TrieElem>
    ghost var Leaves: map<seq<int>, TrieLeaf>
    ghost var Index: map<seq<int>, set<string>>
    ghost var Added: set<string>
    ghost var Repr: set<object>

    /** The arrays and leaves form the trie the picture describes. */
    ghost predicate Shape()
      reads this, Repr
    {
      Wf(depth, root, Nodes, Leaves, Index, Repr) && this !in Repr && Mirrored(Nodes, Leaves, Index, Repr)
    }

    /** The trie holds exactly the buckets prescribed for the added values. */
    ghost predicate Valid()
      reads this, Repr
    {
      Shape() && Index == Expected(Added, depth)
    }

    /** get, read at the trie level: slot i of the branch node at path p
        holds what the picture places one step below p, which is a branch
        node above the leaf level and a leaf at it, so the casts of the
        source cannot fail. */
    function Slot(n: TrieElem, ghost p: seq<int>, i: int): (r: Option<Child>)
      requires Shape() && p in Nodes && Nodes[p] == n && 0 <= i < Slots
      reads this, Repr
      ensures r == SlotOf(Nodes, Leaves, p + [i])
      ensures |p| < depth ==> r.None? || r.value.Elem?
      ensures |p| == depth ==> r.None? || r.value.Leaf?
    {
      n.Get(i)
    }

    /** An empty trie; the depth must be positive. */
    constructor (depth: nat)
      requires depth > 0
      ensures Valid() && fresh(Repr)
      ensures this.depth == depth && Added == {}
      ensures Nodes == map[[] := root] && Leaves == map[] && Index == map[]
    {
      this.depth := depth;
      var r := new TrieElem();
      root := r;
      Nodes := map[[] := r];
      Leaves := map[];
      Index := map[];
      Added := {};
      Repr := {r.children};
      new;
      assert Expected({}, depth) == map[];
    }

    /** One step down from the branch node n at path p, through slot o,
        to a branch node: getOrCreate with the branch-node factory. */
    method StepElem(n: TrieElem, ghost p: seq<int>, o: int) returns (e: TrieElem)
      requires Shape() && p in Nodes && Nodes[p] == n && |p| < depth && 0 <= o < Slots
      modifies this, n.children
      ensures Shape()
      ensures Nodes == old(Nodes)[p + [o] := e] && e.children in Repr
      ensures Leaves == old(Leaves) && Index == old(Index) && Added == old(Added)
      ensures fresh(Repr - old(Repr))
    {
      ghost var nodes, repr;
      e, nodes, repr := DescendElem(n, o, depth, root, p, Nodes, Leaves, Index, Repr);
      Nodes, Repr := nodes, repr;
    }

    /** The last step, from the branch node n at path p (at the leaf
        level) through slot o, to a leaf: getOrCreate with the leaf factory. */
    method StepLeaf(n: TrieElem, ghost p: seq<int>, o: int) returns (l: TrieLeaf)
      requires Shape() && p in Nodes && Nodes[p] == n && |p| == depth && 0 <= o < Slots
      modifies this, n.children
      ensures Shape()
      ensures Leaves == old(Leaves)[p + [o] := l] && l in Repr
      ensures Nodes == old(Nodes) && Index == old(Index) && Added == old(Added)
      ensures fresh(Repr - old(Repr))
    {
      ghost var leaves, repr;
      l, leaves, repr := DescendLeaf(n, o, depth, root, p, Nodes, Leaves, Index, Repr);
      Leaves, Repr := leaves, repr;
    }

    /** Files value in the leaf l at path q and tells whether it was new. */
    method FileValue(l: TrieLeaf, ghost q: seq<int>, value: string) returns (isNew: bool)
      requires Shape() && q in Leaves && Leaves[q] == l
      modifies this, l
      ensures Shape()
      ensures Index == Put(old(Index), q, value)
      ensures isNew <==> value !in Bucket(old(Index), q)
      ensures Nodes == old(Nodes) && Leaves == old(Leaves) && Added == old(Added) && Repr == old(Repr)
    {
      isNew := AddToLeaf(l, q, value, depth, root, Nodes, Leaves, Index, Repr);
      Index := Put(Index, q, value);
    }

    /** The last step of putWordMatch, from the branch node n at path p
        (at the leaf level) through slot o: getOrCreate with the leaf
        factory, then value is added to the leaf's bucket, telling whether
        it was new there. */
    method FileUnder(n: TrieElem, ghost p: seq<int>, o: int, value: string) returns (isNew: bool)
      requires Shape() && p in Nodes && Nodes[p] == n && |p| == depth && 0 <= o < Slots
      modifies this, Repr
      ensures Shape() && fresh(Repr - old(Repr))
      ensures Index == Put(old(Index), p + [o], value)
      ensures isNew <==> value !in Bucket(old(Index), p + [o])
      ensures Nodes == old(Nodes) && Added == old(Added)
    {
      var l := StepLeaf(n, p, o);
      isNew := FileValue(l, p + [o], value);
    }

    /** The descent of putWordMatch through the offsets of the first
        depth characters of word, creating the branch nodes that are
        missing. None is a failed offsetAt; nodes created before it stay. */
    method Descend(word: string) returns (r: Option<TrieElem>, ghost p: seq<int>)
      requires Shape()
      modifies this, Repr
      ensures Shape() && fresh(Repr - old(Repr))
      ensures Leaves == old(Leaves) && Index == old(Index) && Added == old(Added)
      ensures r.Some? <==> forall k :: 0 <= k < depth && k < |word| ==> IsLetter(word[k])
      ensures r.Some? ==> p == PaddedPath(word, depth)[..depth] && p in Nodes && Nodes[p] == r.value && r.value.children in Repr
    {
      ghost var path := PaddedPath(word, depth);
      var n := root;
      p := [];
      for i := 0 to depth
        invariant Shape() && p in Nodes && Nodes[p] == n && |p| == i && n.children in Repr
        invariant p == path[..i]
        invariant forall k :: 0 <= k < i && k < |word| ==> IsLetter(word[k])
        invariant Leaves == old(Leaves) && Index == old(Index) && Added == old(Added)
        invariant fresh(Repr - old(Repr))
      {
        var o := OffsetAt(word, i);
        if o.None? {
          assert i < |word| && !IsLetter(word[i]);
          return None, p;
        }
        n := StepElem(n, p, o.value);
        PathStep(word, depth, p, i, o.value);
        p := p + [o.value];
      }
      r := Some(n);
    }

    /** putWordMatch: walks (and extends) the path of the first depth
        offsets of word through branch nodes, then files value in the leaf
        under offset depth, telling whether value was new there. None is
        the failed range check of offsetAt; nodes created before it stay. */
    method PutWordMatch(word: string, value: string) returns (r: Option<bool>)
      requires Shape()
      modifies this, Repr
      ensures Shape() && Added == old(Added) && fresh(Repr - old(Repr))
      ensures r.Some? <==> PathLetters(word, depth)
      ensures r.Some? ==> Index == Put(old(Index), PaddedPath(word, depth), value)
      ensures r.Some? ==> (r.value <==> value !in Bucket(old(Index), PaddedPath(word, depth)))
      ensures r.None? ==> Index == old(Index)
    {
      var n, p := Descend(word);
      if n.None? {
        return None;
      }
      var o := OffsetAt(word, depth);
      if o.None? {
        assert depth < |word| && !IsLetter(word[depth]);
        return None;
      }
      assert PathLetters(word, depth);
      var isNew := FileUnder(n.value, p, o.value, value);
      PathStep(word, depth, p, depth, o.value);
      r := Some(isNew);
    }

    /** The loop of add: putWordMatch of value under each word of words
        in turn; every word is made of letters, so none of them fails. */
    method PutWords(words: seq<string>, value: string)
      requires Shape() && forall w :: w in words ==> IsWord(w)
      modifies this, Repr
      ensures Shape() && Added == old(Added) && fresh(Repr - old(Repr))
      ensures Index == Inserted(old(Index), value, words, depth)
    {
      for i := 0 to |words|
        invariant Shape() && Added == old(Added) && fresh(Repr - old(Repr))
        invariant Index == Inserted(old(Index), value, words[..i], depth)
      {
        assert IsWord(words[i]);
        assert PathLetters(words[i], depth);
        ghost var before, m := Repr, Index;
        var isNew := PutWordMatch(words[i], value);
        assert Index == Put(m, PaddedPath(words[i], depth), value);
        assert Repr - old(Repr) <= (Repr - before) + (before - old(Repr));
        assert words[..i + 1][..i] == words[..i] && words[..i + 1][i] == words[i];
      }
      assert words[..|words|] == words;
    }

    /** add: files value under each of its words. */
    method Add(value: string)
      requires Valid()
      modifies this, Repr
      ensures Valid() && fresh(Repr - old(Repr))
      ensures Added == old(Added) + {value}
      ensures value in old(Added) ==> Index == old(Index)
    {
      var words := SplitWords(value);
      PutWords(words, value);
      AddValue(Added, value, depth);
      if value in Added {
        assert Added + {value} == Added;
      }
      Added := Added + {value};
    }

    /** TrieElem.values() for the branch node n at path p: the union of
        the values of every child. */
    function ElemValues(n: TrieElem, ghost p: seq<int>): (r: set<string>)
      requires Shape() && p in Nodes && Nodes[p] == n
      reads this, Repr
      ensures r == Below(Index, p)
      decreases depth - |p|, Slots + 1
    {
      BelowFromStart(Index, p);
      SlotValues(n, p, 0)
    }

    /** The mergeAll of the values of children i, i + 1, ... of n, written
        as a union over the slots so that each child's values come with
        its path; SetUtils.MergeAll is the same fold over a sequence. */
    function SlotValues(n: TrieElem, ghost p: seq<int>, i: int): (r: set<string>)
      requires Shape() && p in Nodes && Nodes[p] == n && 0 <= i <= Slots
      reads this, Repr
      ensures r == BelowFrom(Index, p, i)
      decreases depth - |p|, Slots - i
    {
      if i == Slots then
        BelowFromEnd(Index, p);
        {}
      else
        BelowFromStep(Index, p, i);
        ChildValues(n, p, i) + SlotValues(n, p, i + 1)
    }

    /** The values of child i of n: none for an empty slot, the bucket of
        a leaf, the values below a branch node. */
    function ChildValues(n: TrieElem, ghost p: seq<int>, i: int): (r: set<string>)
      requires Shape() && p in Nodes && Nodes[p] == n && 0 <= i < Slots
      reads this, Repr
      ensures r == Below(Index, p + [i])
      decreases depth - |p|, 0
    {
      match n.children[i]
      case None =>
        NothingBelowMissing(Nodes.Keys, Leaves.Keys, Index, depth, p + [i]);
        {}
      case Some(Elem(e)) =>
        ElemValues(e, p + [i])
      case Some(Leaf(l)) =>
        BelowLeaf(Index, p + [i]);
        l.values
    }

    /** getWordMatches: follows the offsets of word down the trie. An empty
        slot yields nothing, a leaf yields its values that contain word,
        and a word that ends on a branch node yields every value below it.
        None is a failed range check of offsetAt on a character read. */
    method GetWordMatches(word: string) returns (r: Option<set<string>>)
      requires Valid()
      ensures IsWord(word) ==> r == Some(Matches(Added, depth, word))
      ensures r.None? ==> !PathLetters(word, depth)
    {
      ghost var path := PaddedPath(word, depth);
      var n := root;
      ghost var p: seq<int> := [];
      for i := 0 to |word|
        invariant p in Nodes && Nodes[p] == n && |p| == i && i <= depth
        invariant p == path[..i]
        invariant forall k :: 0 <= k < i ==> IsLetter(word[k])
      {
        var offset := OffsetAt(word, i);
        if offset.None? {
          assert !IsLetter(word[i]);
          return None;
        }
        var o := offset.value;
        PathStep(word, depth, p, i, o);
        match Slot(n, p, o)
        case Some(Elem(e)) =>
          assert p + [o] in Nodes;
          n, p := e, p + [o];
        case Some(Leaf(l)) =>
          assert p + [o] in Leaves;
          ghost var q := p + [o];
          assert i == depth && q == path by {
            PathStep(word, depth, p, depth, o);
          }
          assert l == Leaves[q] && l.values == Bucket(Index, q);
          LeafAnswer(Added, depth, word, l.values);
          return Some(Containing(l.values, word));
        case None =>
          assert n.children[o] == SlotOf(Nodes, Leaves, p + [o]);
          NothingBelowMissing(Nodes.Keys, Leaves.Keys, Index, depth, p + [o]);
          assert path[..i + 1] == p + [o];
          MissingAnswer(Added, depth, word, i + 1);
          return Some({});
      }
      if IsWord(word) {
        ShortMatchesBelow(Added, depth, word);
      }
      return Some(ElemValues(n, p));
    }

    /** The per-word answers of search, one getWordMatches per word. */
    method WordMatches(words: seq<string>) returns (matches: seq<set<string>>)
      requires Valid()
      requires forall k :: 0 <= k < |words| ==> IsWord(words[k])
      ensures matches == MatchesAll(Added, depth, words)
    {
      matches := [];
      for i := 0 to |words|
        invariant matches == MatchesAll(Added, depth, words[..i])
      {
        var m := GetWordMatches(words[i]);
        matches := matches + [m.value];
        assert matches == MatchesAll(Added, depth, words[..i + 1]);
      }
      assert words[..|words|] == words;
    }

    /** search: the values matching every word of the query. */
    method Search(prefix: string) returns (r: set<string>)
      requires Valid()
      ensures r == SearchSpec(Added, depth, prefix)
    {
      var words := SplitWords(prefix);
      var matches := WordMatches(words);
      r := IntersectAll(matches);
    }
  }

  /** The TrieIndex constructor with its depth check: None for a depth
      that is not positive, otherwise an empty trie of that depth. */
  method NewTrieIndex(depth: int) returns (r: Option<TrieIndex>)
    ensures r.None? <==> depth <= 0
    ensures r.Some? ==> fresh(r.value) && r.value.Valid() && r.value.depth == depth && r.value.Added == {}
    ensures r.Some? ==> fresh(r.value.Repr)
  {
    if depth <= 0 {
      return None;
    }
    var t := new TrieIndex(depth);
    r := Some(t);
  }
}
