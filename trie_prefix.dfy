/**
 * What getLeafOf, getNearestBranch and getPrefix compute, stated over the
 * strings the tree stores: getLeafOf finds exactly the nodes spelling its
 * argument, the climb of getNearestBranch passes only single-child nodes, and
 * the prefix getPrefix returns is the shortest prefix of `s + [NUL]` that no
 * other stored string (followed by NUL) shares.
 */
module TriePrefix {
  import opened Strings
  import opened Trie
  import opened TriePaths

  /** getLeafOf(s, index) on `n` succeeds exactly when some node spells `Path(n) + s[index..]`. */
  lemma {:induction false} LeafOfFinds(t: seq<Node>, n: nat, s: string, index: nat, j: nat)
    requires Wf(t) && n < |t| && index < |s| && j < |t|
    ensures LeafOf(t, n, s, index) == Ok(j) <==> Path(t, j) == Path(t, n) + s[index..]
    decreases |s| - index
  {
    if Path(t, j) == Path(t, n) + s[index..] {
      var q := Path(t, n) + [s[index]];
      assert q <= Path(t, j) by {
        assert s[index..] == [s[index]] + s[index + 1..];
      }
      var a := PathPrefix(t, j, q);
      ExtensionIsChild(t, n, a, s[index]);
      if index == |s| - 1 {
        PathInjective(t, a, j);
      } else {
        assert Path(t, j) == Path(t, a) + s[index + 1..] by {
          assert s[index..] == [s[index]] + s[index + 1..];
        }
        LeafOfFinds(t, a, s, index + 1, j);
      }
    }
  }

  /** Round trip: a stored non-empty string leads getLeafOf to the node spelling it. */
  lemma LeafOfStored(t: seq<Node>, s: string) returns (leaf: nat)
    requires Wf(t) && s in Stored(t) && s != []
    ensures LeafOf(t, 0, s, 0) == Ok(leaf) && Path(t, leaf) == s
    ensures NUL in t[leaf].children
  {
    var x := StoredTerminator(t, s);
    leaf := t[x].parent;
    assert ParentLinked(t, x);
    LeafOfFinds(t, 0, s, 0, leaf);
  }

  /** No node whose string lies between `lo` and the string of `hi` is a branch. */
  ghost predicate Unbranched(t: seq<Node>, lo: string, hi: nat)
    requires Linked(t) && hi < |t|
  {
    forall y :: 0 <= y < |t| && lo <= Path(t, y) <= Path(t, hi) ==> !IsBranch(t[y])
  }

  /**
   * The climb of getNearestBranch(k) from `x`: on success it returns a node on
   * the way (or the child under `k` when `x` itself branches), and every node
   * from there down to `x` has at most one child; it faults on a missing key
   * only at a branching `x`, and on the null parent only when no node from the
   * root down to `x` branches.
   */
  lemma {:induction false} NearestBranchWalk(t: seq<Node>, x: nat, k: char)
    requires Wf(t) && x < |t|
    ensures var r := NearestBranch(t, x, k);
      r.Ok? ==> Path(t, r.value) <= Path(t, x) + [k] && Unbranched(t, Path(t, r.value), x)
    ensures NearestBranch(t, x, k) == Err(MissingKey) ==> IsBranch(t[x]) && k !in t[x].children
    ensures NearestBranch(t, x, k) == Err(NullParent) ==> Unbranched(t, [], x)
    decreases x
  {
    var r := NearestBranch(t, x, k);
    if IsBranch(t[x]) {
      if k in t[x].children {
        ChildPath(t, x, k);
      }
    } else if t[x].parent < 0 {
      forall y | 0 <= y < |t| && [] <= Path(t, y) <= Path(t, x) ensures !IsBranch(t[y]) {
        PathInjective(t, y, x);
      }
    } else {
      var p := t[x].parent;
      NearestBranchWalk(t, p, t[x].key);
      PathStep(t, x);
      assert Path(t, x) == Path(t, p) + [t[x].key];
      assert ParentLinked(t, x);
      if r.Ok? || r == Err(NullParent) {
        var lo := if r.Ok? then Path(t, r.value) else [];
        forall y | 0 <= y < |t| && lo <= Path(t, y) <= Path(t, x) ensures !IsBranch(t[y]) {
          if Path(t, y) == Path(t, x) {
            PathInjective(t, y, x);
          } else {
            assert Path(t, y) <= Path(t, p);
          }
        }
      }
    }
  }

  /** A successful getPrefix(s): the node spelling `s` and the child of its nearest branch. */
  lemma PrefixParts(t: seq<Node>, s: string) returns (leaf: nat, c: nat)
    requires Wf(t) && PrefixOf(t, s).Ok?
    ensures s != [] && LeafOf(t, 0, s, 0) == Ok(leaf) && leaf < |t| && Path(t, leaf) == s
    ensures NearestBranch(t, leaf, NUL) == Ok(c) && 0 < c < |t| && PrefixOf(t, s).value == Path(t, c)
  {
    leaf := LeafOf(t, 0, s, 0).value;
    assert Path(t, 0) + s[0..] == s;
    c := NearestBranch(t, leaf, NUL).value;
  }

  /** The prefix getPrefix(s) returns is a non-empty prefix of `s + [NUL]`. */
  lemma PrefixWithin(t: seq<Node>, s: string)
    requires Wf(t) && PrefixOf(t, s).Ok?
    ensures PrefixOf(t, s).value <= s + [NUL] && PrefixOf(t, s).value != []
  {
    var leaf, c := PrefixParts(t, s);
    NearestBranchWalk(t, leaf, NUL);
    assert Path(t, c) <= s + [NUL];
    PathStep(t, c);
  }

  /** The prefix of a stored `s` is not a prefix of any other stored string followed by NUL. */
  lemma PrefixSeparates(t: seq<Node>, s: string, s2: string)
    requires Wf(t) && s in Stored(t) && s2 in Stored(t) && s2 != s && PrefixOf(t, s).Ok?
    ensures !(PrefixOf(t, s).value <= s2 + [NUL])
  {
    var leaf, c := PrefixParts(t, s);
    NearestBranchWalk(t, leaf, NUL);
    assert Unbranched(t, Path(t, c), leaf);
    var y := Divergence(t, s, s2);
    CommonPrefixLongest(s + [NUL], s2 + [NUL], Path(t, c));
    assert !(Path(t, c) <= Path(t, y));
  }

  /** One key shorter, the prefix of `s` is shared with some other stored string. */
  lemma PrefixShortest(t: seq<Node>, s: string) returns (s2: string)
    requires Wf(t) && Complete(t) && PrefixOf(t, s).Ok?
    ensures s2 in Stored(t) && s2 != s
    ensures var p := PrefixOf(t, s).value; p[..|p| - 1] <= s2 + [NUL]
  {
    var p := PrefixOf(t, s).value;
    var leaf, c := PrefixParts(t, s);
    var b := t[c].parent;
    PrefixWithin(t, s);
    PathStep(t, c);
    s2 := OtherString(t, b, t[c].key);
    assert p[|Path(t, b)|] == t[c].key;
    assert (s + [NUL])[|Path(t, b)|] == t[c].key;
  }

  /** A prefix is found only when some other string shares the tree. */
  lemma PrefixFoundShared(t: seq<Node>, s: string)
    requires Wf(t) && Complete(t)
    ensures PrefixOf(t, s).Ok? ==> Stored(t) != {s}
  {
    if PrefixOf(t, s).Ok? {
      var s2 := PrefixShortest(t, s);
      assert s2 !in {s};
    }
  }

  /** For a stored non-empty `s`, getPrefix(s) can fault only on the root's null parent, with `s` stored alone. */
  lemma PrefixFaultSole(t: seq<Node>, s: string)
    requires Wf(t) && s in Stored(t) && s != [] && PrefixOf(t, s).Err?
    ensures PrefixOf(t, s).fault == NullParent && Stored(t) == {s}
  {
    var leaf := LeafOfStored(t, s);
    var r := NearestBranch(t, leaf, NUL);
    assert r == Err(PrefixOf(t, s).fault);
    NearestBranchWalk(t, leaf, NUL);
    assert r == Err(NullParent);
    SoleStored(t, s, leaf);
  }

  /**
   * For a stored non-empty `s`, getPrefix(s) faults exactly when `s` is the
   * only stored string, and then on the root's null parent.
   */
  lemma PrefixFaults(t: seq<Node>, s: string)
    requires Wf(t) && Complete(t) && s in Stored(t) && s != []
    ensures PrefixOf(t, s).Err? <==> Stored(t) == {s}
    ensures PrefixOf(t, s).Err? ==> PrefixOf(t, s).fault == NullParent
  {
    PrefixFoundShared(t, s);
    if PrefixOf(t, s).Err? {
      PrefixFaultSole(t, s);
    }
  }

  /** When nothing branches from the root down to the node spelling `s`, `s` is all the tree stores. */
  lemma SoleStored(t: seq<Node>, s: string, leaf: nat)
    requires Wf(t) && s in Stored(t) && leaf < |t| && Path(t, leaf) == s
    requires Unbranched(t, [], leaf)
    ensures Stored(t) == {s}
  {
    forall s2 | s2 in Stored(t) ensures s2 == s {
      var y := Divergence(t, s, s2);
    }
  }
}
