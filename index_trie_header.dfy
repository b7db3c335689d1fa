/**
  The node layout `IndexTrieNode` of `index_trie.h`, shared by both variants
  of the subsumption trie. The pointer tree is a value here: `Null` is the
  null pointer, a `Node` holds the (value, child) edges in insertion order and
  the blank (wildcard) child. The source's `n = add_rec(n, ...)` style maps
  onto functions that return the new tree.
 */
module IndexTrieNode {

  datatype Tree = Null | Node(children: seq<Edge>, blank: Tree)
  datatype Edge = Edge(value: nat, child: Tree)

  /** `new IndexTrieNode()`: no edges and no blank child. */
  const Empty: Tree := Node([], Null)

  /** `std::count(mask.begin(), mask.end(), true)` */
  function CountTrue(mask: seq<bool>): (c: nat)
    ensures c <= |mask|
    ensures c == |mask| <==> forall i | 0 <= i < |mask| :: mask[i]
    ensures c == 0 <==> forall i | 0 <= i < |mask| :: !mask[i]
  {
    if mask == [] then 0
    else
      var rest := CountTrue(mask[1..]);
      assert forall i | 1 <= i < |mask| :: mask[i] == mask[1..][i - 1];
      (if mask[0] then 1 else 0) + rest
  }

  /**
    `v` agrees with `values` at every position from `from` on where `mask` is
    true: the stored masked tuple generalises `v` on that suffix.
   */
  ghost predicate Agrees(mask: seq<bool>, values: seq<nat>, v: seq<nat>, from: nat)
    requires |values| == |mask| && |v| == |mask|
  {
    forall i | from <= i < |mask| :: mask[i] ==> v[i] == values[i]
  }

  /**
    The position of the first edge labelled `value`, or `|children|` when there
    is none: the `for (auto& edge : n->d_children)` search of `add_rec`.
   */
  function EdgeFor(children: seq<Edge>, value: nat): (k: nat)
    ensures k <= |children|
    ensures k < |children| ==> children[k].value == value
    ensures forall i | 0 <= i < k :: children[i].value != value
  {
    if children == [] then 0
    else if children[0].value == value then 0
    else 1 + EdgeFor(children[1..], value)
  }

  /** Every node holds at most one edge per value, all the way down. */
  ghost predicate UniqueEdges(n: Tree) {
    match n
    case Null => true
    case Node(children, blank) =>
      && (forall i, j | 0 <= i < j < |children| :: children[i].value != children[j].value)
      && (forall i | 0 <= i < |children| :: UniqueEdges(children[i].child))
      && UniqueEdges(blank)
  }

}

/**
  The subsumption trie as declared in `index_trie.h`: the constructor,
  `isEmpty`, and the header's own inline `add`/`find_rec`/`add_rec`. In this
  variant a null node matches nothing and nothing is ever pruned.
 */
module IndexTrieHeader {
  import opened IndexTrieNode

  /**
    The shape the header variant keeps: every edge leads to a real node (its
    `add_rec` asserts `n` non-null and dereferences edge children); only a
    blank may be null, meaning "no blank".
   */
  ghost predicate WellFormed(n: Tree) {
    match n
    case Null => false
    case Node(children, blank) =>
      && (forall i | 0 <= i < |children| :: WellFormed(children[i].child))
      && (blank.Null? || WellFormed(blank))
  }

  /** `find_rec` of the header: null matches nothing; the end of `members` at a node matches. */
  function FindRec(n: Tree, index: nat, members: seq<nat>): (r: bool)
    decreases n
  {
    match n
    case Null => false
    case Node(children, blank) =>
      if index >= |members| then true
      else
        FindRec(blank, index + 1, members)
        || exists i | 0 <= i < |children| ::
             children[i].value == members[index] && FindRec(children[i].child, index + 1, members)
  }

  /** `add_rec` of the header: follow or create the blank / value edge at every position. */
  function AddRec(n: Tree, index: nat, mask: seq<bool>, values: seq<nat>): (r: Tree)
    requires WellFormed(n)
    requires |values| == |mask|
    ensures WellFormed(r)
    decreases |mask| - index
  {
    if index >= |mask| then n
    else if !mask[index] then
      var blank := if n.blank.Node? then n.blank else Empty;
      n.(blank := AddRec(blank, index + 1, mask, values))
    else
      var k := EdgeFor(n.children, values[index]);
      if k < |n.children| then
        var child := AddRec(n.children[k].child, index + 1, mask, values);
        n.(children := n.children[k := Edge(values[index], child)])
      else
        var child := AddRec(Empty, index + 1, mask, values);
        n.(children := n.children + [Edge(values[index], child)])
  }

  /** Soundness: after the insertion every tuple that agrees on the true positions is found. */
  lemma {:induction false} AddRecSound(n: Tree, index: nat, mask: seq<bool>, values: seq<nat>, v: seq<nat>)
    requires WellFormed(n)
    requires |values| == |mask| && |v| == |mask|
    requires Agrees(mask, values, v, index)
    ensures FindRec(AddRec(n, index, mask, values), index, v)
    decreases |mask| - index
  {
    if index < |mask| {
      var r := AddRec(n, index, mask, values);
      if !mask[index] {
        var blank := if n.blank.Node? then n.blank else Empty;
        AddRecSound(blank, index + 1, mask, values, v);
      } else {
        var k := EdgeFor(n.children, values[index]);
        if k < |n.children| {
          AddRecSound(n.children[k].child, index + 1, mask, values, v);
          assert r.children[k].value == v[index];
        } else {
          AddRecSound(Empty, index + 1, mask, values, v);
          assert r.children[|n.children|].value == v[index];
        }
      }
    }
  }

  /** Monotonicity: a tuple found before an insertion is still found after it. */
  lemma {:induction false} AddRecMonotone(n: Tree, index: nat, mask: seq<bool>, values: seq<nat>, v: seq<nat>)
    requires WellFormed(n)
    requires |values| == |mask|
    requires FindRec(n, index, v)
    ensures FindRec(AddRec(n, index, mask, values), index, v)
    decreases |mask| - index
  {
    if index < |mask| && index < |v| {
      var r := AddRec(n, index, mask, values);
      if !mask[index] {
        if FindRec(n.blank, index + 1, v) {
          AddRecMonotone(n.blank, index + 1, mask, values, v);
        } else {
          var i :| 0 <= i < |n.children| && n.children[i].value == v[index]
                   && FindRec(n.children[i].child, index + 1, v);
          assert r.children[i] == n.children[i];
        }
      } else {
        var k := EdgeFor(n.children, values[index]);
        if !FindRec(n.blank, index + 1, v) {
          var i :| 0 <= i < |n.children| && n.children[i].value == v[index]
                   && FindRec(n.children[i].child, index + 1, v);
          if i == k {
            AddRecMonotone(n.children[k].child, index + 1, mask, values, v);
          }
          assert r.children[i].value == v[index];
        }
      }
    }
  }

  /** A fresh node matches only once every position has been consumed. */
  lemma EmptyFindsOnlyAtEnd(index: nat, v: seq<nat>)
    ensures FindRec(Empty, index, v) <==> index >= |v|
  {
  }

  /**
    Exactness: after the insertion a tuple is found only if it was found
    before or agrees with `values` on the true positions.
   */
  lemma {:induction false} AddRecOnlyAgreeing(n: Tree, index: nat, mask: seq<bool>, values: seq<nat>, v: seq<nat>)
    requires WellFormed(n)
    requires |values| == |mask| && |v| == |mask|
    requires FindRec(AddRec(n, index, mask, values), index, v)
    ensures FindRec(n, index, v) || Agrees(mask, values, v, index)
    decreases |mask| - index
  {
    if index < |mask| {
      var r := AddRec(n, index, mask, values);
      if !mask[index] {
        var blank := if n.blank.Node? then n.blank else Empty;
        if FindRec(r.blank, index + 1, v) {
          AddRecOnlyAgreeing(blank, index + 1, mask, values, v);
          EmptyFindsOnlyAtEnd(index + 1, v);
        } else {
          var i :| 0 <= i < |r.children| && r.children[i].value == v[index]
                   && FindRec(r.children[i].child, index + 1, v);
          assert n.children[i] == r.children[i];
        }
      } else {
        var k := EdgeFor(n.children, values[index]);
        if !FindRec(r.blank, index + 1, v) {
          var i :| 0 <= i < |r.children| && r.children[i].value == v[index]
                   && FindRec(r.children[i].child, index + 1, v);
          if i < |n.children| && i != k {
            assert n.children[i] == r.children[i];
          } else if i == k && k < |n.children| {
            AddRecOnlyAgreeing(n.children[k].child, index + 1, mask, values, v);
            if FindRec(n.children[k].child, index + 1, v) {
              assert n.children[k].value == v[index];
            }
          } else {
            AddRecOnlyAgreeing(Empty, index + 1, mask, values, v);
            EmptyFindsOnlyAtEnd(index + 1, v);
          }
        }
      }
    }
  }

  /** An equal-valued edge is reused, never duplicated: at most one edge per value. */
  lemma {:induction false} AddRecKeepsUniqueEdges(n: Tree, index: nat, mask: seq<bool>, values: seq<nat>)
    requires WellFormed(n) && UniqueEdges(n)
    requires |values| == |mask|
    ensures UniqueEdges(AddRec(n, index, mask, values))
    decreases |mask| - index
  {
    if index < |mask| {
      var r := AddRec(n, index, mask, values);
      if !mask[index] {
        var blank := if n.blank.Node? then n.blank else Empty;
        AddRecKeepsUniqueEdges(blank, index + 1, mask, values);
      } else {
        var k := EdgeFor(n.children, values[index]);
        if k < |n.children| {
          AddRecKeepsUniqueEdges(n.children[k].child, index + 1, mask, values);
          assert forall i | 0 <= i < |r.children| :: r.children[i].value == n.children[i].value;
        } else {
          AddRecKeepsUniqueEdges(Empty, index + 1, mask, values);
          assert forall i | 0 <= i < |n.children| :: r.children[i] == n.children[i];
        }
      }
    }
  }

  /** A fresh node finds no non-empty tuple. */
  lemma EmptyFindsNothing(v: seq<nat>)
    requires |v| > 0
    ensures !FindRec(Empty, 0, v)
  {
  }

  /** The trie object: `d_root` is reassigned by `add`. */
  class IndexTrie {
    const ignoreFullySpecified: bool
    var root: Tree

    ghost predicate Valid()
      reads this
    {
      WellFormed(root) && UniqueEdges(root)
    }

    constructor (ignoreFullySpecified: bool)
      ensures this.ignoreFullySpecified == ignoreFullySpecified
      ensures root == Empty && Valid()
      ensures IsEmpty()
      ensures forall v :: |v| > 0 ==> !Find(v)
    {
      this.ignoreFullySpecified := ignoreFullySpecified;
      root := Empty;
      new;
      forall v | |v| > 0 ensures !Find(v) {
        EmptyFindsNothing(v);
      }
    }

    /** `isEmpty`: the root has no value edges (a blank child is not looked at). */
    function IsEmpty(): (r: bool)
      reads this
      requires Valid()
      ensures r <==> root.children == []
    {
      |root.children| == 0
    }

    function Find(members: seq<nat>): bool
      reads this
    {
      FindRec(root, 0, members)
    }

    method Add(mask: seq<bool>, values: seq<nat>)
      requires Valid()
      requires |values| == |mask|
      modifies this
      ensures Valid()
      ensures root == if ignoreFullySpecified && CountTrue(mask) == |mask| then old(root)
                      else AddRec(old(root), 0, mask, values)
      ensures forall v :: old(Find(v)) ==> Find(v)
      ensures !(ignoreFullySpecified && CountTrue(mask) == |mask|) ==>
                forall v :: |v| == |mask| && Agrees(mask, values, v, 0) ==> Find(v)
      ensures forall v | |v| == |mask| :: Find(v) ==> old(Find(v)) || Agrees(mask, values, v, 0)
    {
      var cardinality := CountTrue(mask);
      if ignoreFullySpecified && cardinality == |mask| {
        return;
      }
      ghost var before := root;
      AddRecKeepsUniqueEdges(root, 0, mask, values);
      root := AddRec(root, 0, mask, values);
      forall v | FindRec(before, 0, v) ensures Find(v) {
        AddRecMonotone(before, 0, mask, values, v);
      }
      forall v | |v| == |mask| && Agrees(mask, values, v, 0) ensures Find(v) {
        AddRecSound(before, 0, mask, values, v);
      }
      forall v | |v| == |mask| && Find(v) ensures FindRec(before, 0, v) || Agrees(mask, values, v, 0) {
        AddRecOnlyAgreeing(before, 0, mask, values, v);
      }
    }
  }
}
