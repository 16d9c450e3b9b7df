/**
 * The PrefixNode tree as an object: the arena of its nodes is a field that
 * add updates in place, and the walks that build strings or vectors in loops
 * are methods proved against the specifications of Trie.
 */
module PrefixTrees {
  import opened Strings
  import opened Trie
  import opened TriePaths
  import opened TriePrefix
  import opened TrieLeaves
  import opened TrieEntries
  import opened TrieGrowth

  class PrefixTree {
    /** The nodes of the tree; index 0 is the root PrefixNode. */
    var nodes: seq<Node>

    ghost predicate Valid()
      reads this
    {
      Wf(nodes) && Complete(nodes)
    }

    /** PrefixNode(): a root with no parent, key NUL and no children. */
    constructor ()
      ensures Valid() && nodes == [Node(NUL, -1, map[])] && Stored(nodes) == {}
    {
      nodes := [Node(NUL, -1, map[])];
    }

    /**
     * addChildren(c) on node `n`: emplaces a new child under `c` unless one is
     * there already, and returns the child now under `c`.
     */
    method AddChild(n: nat, c: char) returns (child: nat)
      requires Wf(nodes) && n < |nodes| && (n == 0 || nodes[n].key != NUL)
      modifies this
      ensures c in old(nodes[n].children) ==> nodes == old(nodes)
      ensures c !in old(nodes[n].children) ==> nodes == Attach(old(nodes), n, c)
      ensures Wf(nodes) && Grows(old(nodes), nodes) && KeepsChildren(old(nodes), nodes)
      ensures n < child < |nodes| && nodes[child].parent == n && nodes[child].key == c
      ensures c in nodes[n].children && nodes[n].children[c] == child
      ensures Path(nodes, n) == Path(old(nodes), n) && Path(nodes, child) == Path(old(nodes), n) + [c]
      ensures c != NUL ==> Stored(nodes) == old(Stored(nodes))
      ensures c == NUL ==> Stored(nodes) == old(Stored(nodes)) + {Path(old(nodes), n)}
    {
      if c in nodes[n].children {
        child := nodes[n].children[c];
        assert ChildLinked(nodes, n, c);
        if c == NUL {
          NulChildStored(nodes, n);
        }
      } else {
        child := |nodes|;
        AttachWf(nodes, n, c);
        AttachStored(nodes, n, c);
        PathKept(nodes, Attach(nodes, n, c), n);
        nodes := Attach(nodes, n, c);
      }
      ChildPath(nodes, n, c);
    }

    /**
     * add(s, index) on node `n`: attaches s[index..] key by key, and then the
     * NUL terminator (read as s[s.size()]), below `n`.
     */
    method Add(n: nat, s: string, index: nat)
      requires Wf(nodes) && CompleteBut(nodes, n) && n < |nodes| && (n == 0 || nodes[n].key != NUL)
      requires index <= |s| && NUL !in s[index..]
      modifies this
      ensures Valid() && Grows(old(nodes), nodes) && KeepsChildren(old(nodes), nodes)
      ensures Stored(nodes) == old(Stored(nodes)) + {Path(old(nodes), n) + s[index..]}
      ensures Path(old(nodes), n) + s[index..] in old(Stored(nodes)) ==> nodes == old(nodes)
      decreases |s| - index
    {
      ghost var t0 := nodes;
      if index == |s| && Path(t0, n) + s[index..] in Stored(t0) {
        StoredNextKey(t0, n, s, index);
      }
      var key := if index == |s| then NUL else s[index];
      var child := AddChild(n, key);
      ghost var t1 := nodes;
      AddedComplete(t0, t1, n, key, child);
      if index == |s| {
        DropAll(Path(t0, n), s, index);
        var again := AddChild(n, NUL);
      } else {
        AbsentFromRest(NUL, s, index);
        Add(child, s, index + 1);
        AddStep(t0, t1, nodes, n, child, s, index);
      }
    }

    /** root.add(s): the tree stores `s` in addition to what it stored. */
    method Insert(s: string)
      requires Valid() && NUL !in s
      modifies this
      ensures Valid() && Stored(nodes) == old(Stored(nodes)) + {s}
      ensures s in old(Stored(nodes)) ==> nodes == old(nodes)
      ensures KeepsChildren(old(nodes), nodes)
      ensures forall i :: 0 <= i < |old(nodes)| ==> Path(nodes, i) == Path(old(nodes), i)
    {
      assert Path(nodes, 0) + s[0..] == s;
      ghost var t0 := nodes;
      Add(0, s, 0);
      PathsKept(t0, nodes);
    }

    /**
     * getStringToRoot() on node `n`: collects keys while climbing, up to but
     * excluding the first ancestor keyed NUL, then reverses them.
     */
    method StringToRoot(n: nat) returns (r: string)
      requires Wf(nodes) && 0 < n < |nodes|
      ensures r == Path(nodes, n)
    {
      var t := nodes;
      var ptr: int := n;
      var keys: string := [];
      while ptr == n || t[ptr].key != NUL
        invariant 0 <= ptr <= n
        invariant ptr == n || HaveChildren(t[ptr])
        invariant Path(t, ptr) + Reverse(keys) == Path(t, n)
        decreases ptr
      {
        var p := t[ptr].parent;
        assert ParentLinked(t, ptr);
        ReverseSnoc(keys, t[ptr].key);
        keys := keys + [t[ptr].key];
        ptr := p;
      }
      r := Reverse(keys);
    }

    /**
     * writeLeafsToVector(out) on node `n`: visits the children in key order,
     * appending a leaf child and descending into any other.
     */
    method WriteLeafs(n: nat, out: seq<nat>) returns (res: seq<nat>)
      requires Wf(nodes) && n < |nodes|
      ensures res == out + Leaves(nodes, n)
      decreases |nodes| - n
    {
      var t := nodes;
      var keys := SortedKeys(t[n].children.Keys);
      assert keys[0..] == keys;
      res := out;
      var i := 0;
      while i < |keys|
        invariant 0 <= i <= |keys|
        invariant res + LeavesUnder(t, n, keys[i..]) == out + Leaves(t, n)
      {
        var c := t[n].children[keys[i]];
        WriteStep(t, n, keys, i, res, out + Leaves(t, n));
        if IsLeaf(t[c]) {
          res := res + [c];
        } else {
          res := WriteLeafs(c, res);
        }
        i := i + 1;
      }
    }

    /** The pair written for one leaf: its string and the string of its nearest branch. */
    method EntryPair(leaf: nat) returns (e: Result<(string, string)>)
      requires Wf(nodes) && 0 < leaf < |nodes|
      ensures e == EntryOf(nodes, leaf)
    {
      var b := NearestBranch(nodes, leaf, NUL);
      if b.Err? {
        return Err(b.fault);
      }
      var str := StringToRoot(leaf);
      var prefix := StringToRoot(b.value);
      e := Ok((str, prefix));
    }

    /**
     * The loop of getAllStringsWithPrefixes() over a vector of leaves: their
     * pairs in order, stopping at the first leaf whose climb faults.
     */
    method EntryPairs(leafs: seq<nat>) returns (r: Result<seq<(string, string)>>)
      requires Wf(nodes) && forall i :: 0 <= i < |leafs| ==> 0 < leafs[i] < |nodes|
      ensures r == Entries(nodes, leafs)
    {
      ghost var rs := EntryResults(nodes, leafs);
      var result: seq<(string, string)> := [];
      var i := 0;
      while i < |leafs|
        invariant 0 <= i <= |leafs|
        invariant Collect(rs[..i]) == Ok(result)
      {
        var e := EntryPair(leafs[i]);
        assert e == rs[i];
        CollectStep(rs, i, result);
        if e.Err? {
          CollectErrExtends(rs, i + 1);
          return Err(e.fault);
        }
        result := result + [e.value];
        i := i + 1;
      }
      assert rs[..i] == rs;
      r := Ok(result);
    }

    /**
     * getAllStringsWithPrefixes(): for each leaf in order, its string and the
     * string of the child of its nearest branch.
     */
    method AllStringsWithPrefixes() returns (r: Result<seq<(string, string)>>)
      requires Valid()
      ensures r == Entries(nodes, Leaves(nodes, 0))
      ensures r.Err? <==> |Stored(nodes)| == 1
    {
      var leafs := WriteLeafs(0, []);
      assert leafs == Leaves(nodes, 0);
      r := EntryPairs(leafs);
      EntriesFault(nodes);
    }

    /**
     * getPrefix(s) on the root: the string of the node just below the nearest
     * branch above the node spelling `s`, followed down the terminator's key.
     */
    method GetPrefix(s: string) returns (r: Result<string>)
      requires Valid()
      ensures r == PrefixOf(nodes, s)
      ensures s in Stored(nodes) && s != [] ==> (r.Err? <==> Stored(nodes) == {s})
      ensures r.Ok? ==> r.value != [] && r.value <= s + [NUL]
    {
      var t := nodes;
      if s in Stored(t) && s != [] {
        PrefixFaults(t, s);
      }
      if PrefixOf(t, s).Ok? {
        PrefixWithin(t, s);
      }
      if |s| == 0 {
        return Err(EmptyString);
      }
      var leaf := LeafOf(t, 0, s, 0);
      if leaf.Err? {
        return Err(leaf.fault);
      }
      var b := NearestBranch(t, leaf.value, NUL);
      if b.Err? {
        return Err(b.fault);
      }
      var p := StringToRoot(b.value);
      r := Ok(p);
    }
  }

  /**
   * One turn of the loop of writeLeafsToVector: once the child under `ks[i]`
   * has added its leaves, what is left to add are the leaves under `ks[i + 1..]`.
   */
  lemma WriteStep(t: seq<Node>, n: nat, ks: seq<char>, i: nat, before: seq<nat>, goal: seq<nat>)
    requires Wf(t) && n < |t| && (forall k :: k in ks ==> k in t[n].children) && i < |ks|
    requires before + LeavesUnder(t, n, ks[i..]) == goal
    ensures var c := t[n].children[ks[i]];
      n < c < |t| &&
      (before + (if IsLeaf(t[c]) then [c] else Leaves(t, c))) + LeavesUnder(t, n, ks[i + 1..]) == goal
  {
    var c := t[n].children[ks[i]];
    LeavesUnderCons(t, n, ks[i..]);
    assert ks[i..][1..] == ks[i + 1..];
    Regroup(before, if IsLeaf(t[c]) then [c] else Leaves(t, c), LeavesUnder(t, n, ks[i + 1..]));
  }
}
