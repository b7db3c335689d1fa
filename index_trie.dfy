/**
  The subsumption trie as implemented in `index_trie.cpp`, the variant the
  enumerator uses. Here a null subtree means "matches everything": an
  insertion whose remaining count of true mask positions reaches 0 replaces
  the subtree by null, and `find_rec` answers true on null.
 */
module IndexTrie {
  import opened IndexTrieNode

  /** `IndexTrie::find_rec`: null or the end of `members` matches; a null blank is absent. */
  function FindRec(n: Tree, index: nat, members: seq<nat>): (r: bool)
    decreases n
  {
    match n
    case Null => true
    case Node(children, blank) =>
      if index >= |members| then true
      else
        (blank.Node? && FindRec(blank, index + 1, members))
        || exists i | 0 <= i < |children| ::
             children[i].value == members[index] && FindRec(children[i].child, index + 1, members)
  }

  /**
    `IndexTrie::add_rec`. `cardinality` is the number of true mask positions
    from `index` on; the requires states how `add` calls it. That it is
    positive is what makes the source's `Assert(index < mask.size())` hold:
    reading `mask[index]` below is checked.
   */
  function AddRec(n: Tree, index: nat, cardinality: nat, mask: seq<bool>, values: seq<nat>): (r: Tree)
    requires |values| == |mask| && index <= |mask|
    requires cardinality == CountTrue(mask[index..])
    ensures n.Node? && cardinality > 0 ==> r.Node?
    decreases |mask| - index
  {
    if n.Null? then Null
    else if cardinality == 0 then Null
    else
      assert mask[index..] == [mask[index]] + mask[index + 1..];
      if !mask[index] then
        var blank := if n.blank.Node? then n.blank else Empty;
        n.(blank := AddRec(blank, index + 1, cardinality, mask, values))
      else
        var k := EdgeFor(n.children, values[index]);
        if k < |n.children| then
          var child := AddRec(n.children[k].child, index + 1, cardinality - 1, mask, values);
          n.(children := n.children[k := Edge(values[index], child)])
        else
          var child := AddRec(Empty, index + 1, cardinality - 1, mask, values);
          n.(children := n.children + [Edge(values[index], child)])
  }

  lemma SuffixCount(mask: seq<bool>, index: nat)
    requires index < |mask|
    ensures CountTrue(mask[index..]) == (if mask[index] then 1 else 0) + CountTrue(mask[index + 1..])
  {
    assert mask[index..][1..] == mask[index + 1..];
  }

  /** Soundness: after the insertion every tuple agreeing on the true positions is found. */
  lemma {:induction false} AddRecSound(n: Tree, index: nat, cardinality: nat, mask: seq<bool>, values: seq<nat>, v: seq<nat>)
    requires |values| == |mask| && |v| == |mask| && index <= |mask|
    requires cardinality == CountTrue(mask[index..])
    requires Agrees(mask, values, v, index)
    ensures FindRec(AddRec(n, index, cardinality, mask, values), index, v)
    decreases |mask| - index
  {
    if n.Node? && cardinality > 0 {
      SuffixCount(mask, index);
      var r := AddRec(n, index, cardinality, mask, values);
      if !mask[index] {
        var blank := if n.blank.Node? then n.blank else Empty;
        AddRecSound(blank, index + 1, cardinality, mask, values, v);
      } else {
        var k := EdgeFor(n.children, values[index]);
        if k < |n.children| {
          AddRecSound(n.children[k].child, index + 1, cardinality - 1, mask, values, v);
          assert r.children[k].value == v[index];
        } else {
          AddRecSound(Empty, index + 1, cardinality - 1, mask, values, v);
          assert r.children[|n.children|].value == v[index];
        }
      }
    }
  }

  /** Monotonicity: `add` only adds edges or blanks or turns subtrees into match-all. */
  lemma {:induction false} AddRecMonotone(n: Tree, index: nat, cardinality: nat, mask: seq<bool>, values: seq<nat>, v: seq<nat>)
    requires |values| == |mask| && index <= |mask|
    requires cardinality == CountTrue(mask[index..])
    requires FindRec(n, index, v)
    ensures FindRec(AddRec(n, index, cardinality, mask, values), index, v)
    decreases |mask| - index
  {
    if n.Node? && cardinality > 0 && index < |v| {
      SuffixCount(mask, index);
      var r := AddRec(n, index, cardinality, mask, values);
      if !mask[index] {
        if n.blank.Node? && FindRec(n.blank, index + 1, v) {
          AddRecMonotone(n.blank, index + 1, cardinality, mask, values, v);
        } else {
          var i :| 0 <= i < |n.children| && n.children[i].value == v[index]
                   && FindRec(n.children[i].child, index + 1, v);
          assert r.children[i] == n.children[i];
        }
      } else {
        var k := EdgeFor(n.children, values[index]);
        if !(n.blank.Node? && FindRec(n.blank, index + 1, v)) {
          var i :| 0 <= i < |n.children| && n.children[i].value == v[index]
                   && FindRec(n.children[i].child, index + 1, v);
          if i == k {
            AddRecMonotone(n.children[k].child, index + 1, cardinality - 1, mask, values, v);
          }
          assert r.children[i].value == v[index];
        }
      }
    }
  }

  /**
    Inserting into a fresh node is exact: a tuple is found afterwards if and
    only if it agrees with `values` on the true positions.
   */
  lemma {:induction false} AddRecToEmptyExact(index: nat, cardinality: nat, mask: seq<bool>, values: seq<nat>, v: seq<nat>)
    requires |values| == |mask| && |v| == |mask| && index <= |mask|
    requires cardinality == CountTrue(mask[index..])
    ensures FindRec(AddRec(Empty, index, cardinality, mask, values), index, v) <==> Agrees(mask, values, v, index)
    decreases |mask| - index
  {
    if cardinality == 0 {
      forall i | index <= i < |mask| ensures !mask[i] {
        assert mask[index..][i - index] == mask[i];
      }
    } else {
      SuffixCount(mask, index);
      var r := AddRec(Empty, index, cardinality, mask, values);
      assert Agrees(mask, values, v, index) <==>
             (mask[index] ==> v[index] == values[index]) && Agrees(mask, values, v, index + 1);
      if mask[index] {
        AddRecToEmptyExact(index + 1, cardinality - 1, mask, values, v);
        var c := AddRec(Empty, index + 1, cardinality - 1, mask, values);
        assert r == Node([Edge(values[index], c)], Null);
        assert FindRec(r, index, v) <==> v[index] == values[index] && FindRec(c, index + 1, v) by {
          if v[index] == values[index] && FindRec(c, index + 1, v) {
            assert r.children[0].value == v[index] && FindRec(r.children[0].child, index + 1, v);
          }
        }
      } else {
        AddRecToEmptyExact(index + 1, cardinality, mask, values, v);
      }
    }
  }

  /** A fresh node matches only once every position has been consumed. */
  lemma EmptyFindsOnlyAtEnd(index: nat, v: seq<nat>)
    ensures FindRec(Empty, index, v) <==> index >= |v|
  {
  }

  /**
    Exactness: after the insertion a tuple is found only if it was found
    before or agrees with `values` on the true positions. Together with
    `AddRecSound` and `AddRecMonotone`, the tuples found afterwards are exactly
    those found before and those the inserted masked tuple generalises.
   */
  lemma {:induction false} AddRecOnlyAgreeing(n: Tree, index: nat, cardinality: nat, mask: seq<bool>, values: seq<nat>, v: seq<nat>)
    requires |values| == |mask| && |v| == |mask| && index <= |mask|
    requires cardinality == CountTrue(mask[index..])
    requires FindRec(AddRec(n, index, cardinality, mask, values), index, v)
    ensures FindRec(n, index, v) || Agrees(mask, values, v, index)
    decreases |mask| - index
  {
    if n.Null? {
    } else if cardinality == 0 {
      forall i | index <= i < |mask| ensures !mask[i] {
        assert mask[index..][i - index] == mask[i];
      }
    } else {
      SuffixCount(mask, index);
      var r := AddRec(n, index, cardinality, mask, values);
      if !mask[index] {
        var blank := if n.blank.Node? then n.blank else Empty;
        if r.blank.Node? && FindRec(r.blank, index + 1, v) {
          AddRecOnlyAgreeing(blank, index + 1, cardinality, mask, values, v);
          EmptyFindsOnlyAtEnd(index + 1, v);
        } else {
          var i :| 0 <= i < |r.children| && r.children[i].value == v[index]
                   && FindRec(r.children[i].child, index + 1, v);
          assert n.children[i] == r.children[i];
        }
      } else {
        var k := EdgeFor(n.children, values[index]);
        if !(r.blank.Node? && FindRec(r.blank, index + 1, v)) {
          var i :| 0 <= i < |r.children| && r.children[i].value == v[index]
                   && FindRec(r.children[i].child, index + 1, v);
          if i < |n.children| && i != k {
            assert n.children[i] == r.children[i];
          } else if i == k && k < |n.children| {
            AddRecOnlyAgreeing(n.children[k].child, index + 1, cardinality - 1, mask, values, v);
            if FindRec(n.children[k].child, index + 1, v) {
              assert n.children[k].value == v[index];
            }
          } else {
            AddRecOnlyAgreeing(Empty, index + 1, cardinality - 1, mask, values, v);
            EmptyFindsOnlyAtEnd(index + 1, v);
          }
        }
      }
    }
  }

  /** With no true position left the subtree is freed and the result matches everything. */
  lemma AllBlankMatchesAll(n: Tree, mask: seq<bool>, values: seq<nat>, v: seq<nat>)
    requires |values| == |mask|
    requires forall i | 0 <= i < |mask| :: !mask[i]
    ensures AddRec(n, 0, CountTrue(mask), mask, values) == Null
    ensures FindRec(AddRec(n, 0, CountTrue(mask), mask, values), 0, v)
  {
    assert mask[0..] == mask;
  }

  /** An equal-valued edge is reused, never duplicated. */
  lemma {:induction false} AddRecKeepsUniqueEdges(n: Tree, index: nat, cardinality: nat, mask: seq<bool>, values: seq<nat>)
    requires |values| == |mask| && index <= |mask|
    requires cardinality == CountTrue(mask[index..])
    requires UniqueEdges(n)
    ensures UniqueEdges(AddRec(n, index, cardinality, mask, values))
    decreases |mask| - index
  {
    if n.Node? && cardinality > 0 {
      SuffixCount(mask, index);
      var r := AddRec(n, index, cardinality, mask, values);
      if !mask[index] {
        var blank := if n.blank.Node? then n.blank else Empty;
        AddRecKeepsUniqueEdges(blank, index + 1, cardinality, mask, values);
      } else {
        var k := EdgeFor(n.children, values[index]);
        if k < |n.children| {
          AddRecKeepsUniqueEdges(n.children[k].child, index + 1, cardinality - 1, mask, values);
          assert forall i | 0 <= i < |r.children| :: r.children[i].value == n.children[i].value;
        } else {
          AddRecKeepsUniqueEdges(Empty, index + 1, cardinality - 1, mask, values);
          assert forall i | 0 <= i < |n.children| :: r.children[i] == n.children[i];
        }
      }
    }
  }

  /** A fresh root finds no non-empty tuple. */
  lemma EmptyFindsNothing(v: seq<nat>)
    requires |v| > 0
    ensures !FindRec(Empty, 0, v)
  {
  }

  /**
    A failure with position 0 a wildcard and position 1 fixed to 1.
    Afterwards [5, 1] is found and [5, 0] is not.
   */
  lemma WildcardExample()
    ensures var t := AddRec(Empty, 0, 1, [false, true], [0, 1]);
            FindRec(t, 0, [5, 1]) && !FindRec(t, 0, [5, 0])
  {
    assert CountTrue([false, true][0..]) == 1 by { assert [false, true][0..] == [false, true]; }
    AddRecToEmptyExact(0, 1, [false, true], [0, 1], [5, 1]);
    AddRecToEmptyExact(0, 1, [false, true], [0, 1], [5, 0]);
  }

  /** The trie object of `index_trie.cpp`; `add` reassigns `d_root`, which may become null. */
  class IndexTrie {
    const ignoreFullySpecified: bool
    var root: Tree

    ghost predicate Valid()
      reads this
    {
      UniqueEdges(root)
    }

    constructor (ignoreFullySpecified: bool)
      ensures this.ignoreFullySpecified == ignoreFullySpecified
      ensures root == Empty && Valid()
      ensures forall v :: |v| > 0 ==> !Find(v)
    {
      this.ignoreFullySpecified := ignoreFullySpecified;
      root := Empty;
      new;
      forall v | |v| > 0 ensures !Find(v) {
        EmptyFindsNothing(v);
      }
    }

    /**
      `isEmpty` from the header, which dereferences the root: it is defined
      only while the root is not null, and an all-blank insertion nulls it.
     */
    function IsEmpty(): (r: bool)
      reads this
      requires root.Node?
      ensures r <==> root.children == []
    {
      |root.children| == 0
    }

    function Find(members: seq<nat>): bool
      reads this
    {
      FindRec(root, 0, members)
    }

    method Add(mask: seq<bool>, values: seq<nat>)
      requires Valid()
      requires |values| == |mask|
      modifies this
      ensures Valid()
      ensures root == if ignoreFullySpecified && CountTrue(mask) == |mask| then old(root)
                      else AddRec(old(root), 0, CountTrue(mask), mask, values)
      ensures forall v :: old(Find(v)) ==> Find(v)
      ensures !(ignoreFullySpecified && CountTrue(mask) == |mask|) ==>
                forall v :: |v| == |mask| && Agrees(mask, values, v, 0) ==> Find(v)
      ensures forall v | |v| == |mask| :: Find(v) ==> old(Find(v)) || Agrees(mask, values, v, 0)
      ensures |mask| > 0 && CountTrue(mask) == 0 ==> root == Null && forall v :: Find(v)
    {
      var cardinality := CountTrue(mask);
      if ignoreFullySpecified && cardinality == |mask| {
        return;
      }
      assert mask[0..] == mask;
      ghost var before := root;
      AddRecKeepsUniqueEdges(root, 0, cardinality, mask, values);
      root := AddRec(root, 0, cardinality, mask, values);
      forall v | FindRec(before, 0, v) ensures Find(v) {
        AddRecMonotone(before, 0, cardinality, mask, values, v);
      }
      forall v | |v| == |mask| && Agrees(mask, values, v, 0) ensures Find(v) {
        AddRecSound(before, 0, cardinality, mask, values, v);
      }
      forall v | |v| == |mask| && Find(v) ensures FindRec(before, 0, v) || Agrees(mask, values, v, 0) {
        AddRecOnlyAgreeing(before, 0, cardinality, mask, values, v);
      }
    }
  }
}
