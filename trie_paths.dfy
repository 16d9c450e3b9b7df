/**
 * Facts about the paths of a well-formed arena: distinct nodes spell distinct
 * strings, the prefixes of a node's string are spelled by its ancestors, the
 * children of a node are exactly the one-key extensions of its string, and
 * only a terminator's string contains NUL.
 */
module TriePaths {
  import opened Strings
  import opened Trie

  /** The string of a non-root node is its parent's string followed by its key. */
  lemma PathStep(t: seq<Node>, n: nat)
    requires Linked(t) && 0 < n < |t|
    ensures |Path(t, n)| > 0
    ensures Path(t, n)[..|Path(t, n)| - 1] == Path(t, t[n].parent)
    ensures Path(t, n)[|Path(t, n)| - 1] == t[n].key
  {
  }

  /** Two nodes that spell the same string are the same node. */
  lemma {:induction false} PathInjective(t: seq<Node>, i: nat, j: nat)
    requires Wf(t) && i < |t| && j < |t| && Path(t, i) == Path(t, j)
    ensures i == j
    decreases i + j
  {
    if i != 0 && j != 0 {
      PathStep(t, i);
      PathStep(t, j);
      PathInjective(t, t[i].parent, t[j].parent);
      assert ParentLinked(t, i) && ParentLinked(t, j);
    } else if i != 0 {
      PathStep(t, i);
    } else if j != 0 {
      PathStep(t, j);
    }
  }

  /** Every prefix of a node's string is the string of one of its ancestors. */
  lemma {:induction false} PathPrefix(t: seq<Node>, j: nat, q: string) returns (a: nat)
    requires Wf(t) && j < |t| && q <= Path(t, j)
    ensures a <= j && Path(t, a) == q
    decreases j
  {
    if q == Path(t, j) {
      a := j;
    } else {
      PathStep(t, j);
      assert q <= Path(t, t[j].parent);
      a := PathPrefix(t, t[j].parent, q);
    }
  }

  /** A node spelling `Path(y) + [c]` is the child of `y` under `c`. */
  lemma ExtensionIsChild(t: seq<Node>, y: nat, j: nat, c: char)
    requires Wf(t) && y < |t| && j < |t| && Path(t, j) == Path(t, y) + [c]
    ensures c in t[y].children && t[y].children[c] == j
  {
    assert j != 0;
    PathStep(t, j);
    PathInjective(t, t[j].parent, y);
    assert ParentLinked(t, j);
  }

  /** The child of `y` under `c` spells `Path(y) + [c]`. */
  lemma ChildPath(t: seq<Node>, y: nat, c: char)
    requires Wf(t) && y < |t| && c in t[y].children
    ensures t[y].children[c] < |t| && Path(t, t[y].children[c]) == Path(t, y) + [c]
  {
    assert ChildLinked(t, y, c);
  }

  /** Only a terminator's own key can be NUL on its path. */
  lemma {:induction false} PathNul(t: seq<Node>, j: nat)
    requires Wf(t) && j < |t| && (j == 0 || t[j].key != NUL)
    ensures NUL !in Path(t, j)
    decreases j
  {
    if j != 0 {
      var p := t[j].parent;
      assert ParentLinked(t, j);
      PathNul(t, p);
    }
  }

  /** A stored string is NUL-free, and a terminator spells it followed by NUL. */
  lemma StoredTerminator(t: seq<Node>, s: string) returns (x: nat)
    requires Wf(t) && s in Stored(t)
    ensures 0 < x < |t| && t[x].key == NUL && Path(t, t[x].parent) == s
    ensures Path(t, x) == s + [NUL] && NUL !in s
  {
    x :| 0 < x < |t| && t[x].key == NUL && Path(t, t[x].parent) == s;
    var p := t[x].parent;
    assert ParentLinked(t, x);
    PathNul(t, p);
  }

  /** A node spelling `s + [NUL]` is a terminator, so `s` is stored. */
  lemma TerminatorStored(t: seq<Node>, x: nat, s: string)
    requires Wf(t) && x < |t| && Path(t, x) == s + [NUL]
    ensures 0 < x && t[x].key == NUL && s in Stored(t)
  {
    assert x != 0;
    PathStep(t, x);
  }

  /** Two different NUL-free strings: neither terminated form is a prefix of the other. */
  lemma TerminatedDiffer(s: string, s2: string)
    requires NUL !in s && NUL !in s2 && s + [NUL] <= s2 + [NUL]
    ensures s == s2
  {
    assert (s2 + [NUL])[|s|] == (s + [NUL])[|s|] == NUL;
    assert |s| == |s2|;
    assert s == (s + [NUL])[..|s|] == (s2 + [NUL])[..|s2|] == s2;
  }

  /** Two different NUL-free strings, terminated, part before either ends. */
  lemma TerminatedSplit(s: string, s2: string)
    requires NUL !in s && NUL !in s2 && s != s2
    ensures var q := CommonPrefix(s + [NUL], s2 + [NUL]);
      |q| <= |s| && |q| <= |s2| && q <= s && q <= s2 &&
      (s + [NUL])[|q|] != (s2 + [NUL])[|q|]
  {
    var a, b := s + [NUL], s2 + [NUL];
    var q := CommonPrefix(a, b);
    if |q| == |a| {
      assert a <= b;
      TerminatedDiffer(s, s2);
    }
    if |q| == |b| {
      assert b <= a;
      TerminatedDiffer(s2, s);
    }
    assert q == a[..|q|] == s[..|q|];
    assert q == b[..|q|] == s2[..|q|];
  }

  /** Every node has a leaf at or below it. */
  lemma {:induction false} DescendantLeaf(t: seq<Node>, z: nat) returns (x: nat)
    requires Wf(t) && z < |t|
    ensures z <= x < |t| && IsLeaf(t[x]) && Path(t, z) <= Path(t, x)
    decreases |t| - z
  {
    if IsLeaf(t[z]) {
      x := z;
    } else {
      var k :| k in t[z].children;
      ChildPath(t, z, k);
      x := DescendantLeaf(t, t[z].children[k]);
    }
  }

  /**
   * Below a branch there is a stored string that leaves the branch through a
   * key other than `ch`.
   */
  lemma OtherString(t: seq<Node>, y: nat, ch: char) returns (s2: string)
    requires Wf(t) && Complete(t) && y < |t| && IsBranch(t[y])
    ensures s2 in Stored(t) && Path(t, y) < s2 + [NUL]
    ensures (s2 + [NUL])[|Path(t, y)|] != ch
  {
    var a, b :| a in t[y].children && b in t[y].children && a != b;
    var k := if a != ch then a else b;
    ChildPath(t, y, k);
    var x := DescendantLeaf(t, t[y].children[k]);
    assert 0 < x && t[x].key == NUL;
    s2 := Path(t, t[x].parent);
    assert Path(t, x) == s2 + [NUL];
    KeyAfterPrefix(Path(t, y), k, s2 + [NUL]);
  }

  /**
   * Two different stored strings part at a branch: the node spelling their
   * longest common prefix (terminated by NUL).
   */
  lemma Divergence(t: seq<Node>, s: string, s2: string) returns (y: nat)
    requires Wf(t) && s in Stored(t) && s2 in Stored(t)
    ensures s != s2 ==> y < |t| && Path(t, y) == CommonPrefix(s + [NUL], s2 + [NUL])
    ensures s != s2 ==> Path(t, y) <= s && Path(t, y) <= s2 && IsBranch(t[y])
  {
    y := 0;
    if s != s2 {
      var x1 := StoredTerminator(t, s);
      var x2 := StoredTerminator(t, s2);
      var a, b := s + [NUL], s2 + [NUL];
      var q := CommonPrefix(a, b);
      TerminatedSplit(s, s2);
      ExtendPrefix(a, q);
      ExtendPrefix(b, q);
      y := BranchAt(t, x1, x2, q, a[|q|], b[|q|]);
    }
  }

  /** Two nodes whose strings leave the common prefix `q` through different keys: `q` spells a branch. */
  lemma BranchAt(t: seq<Node>, x1: nat, x2: nat, q: string, c1: char, c2: char) returns (y: nat)
    requires Wf(t) && x1 < |t| && x2 < |t| && c1 != c2
    requires q + [c1] <= Path(t, x1) && q + [c2] <= Path(t, x2)
    ensures y < |t| && Path(t, y) == q && IsBranch(t[y])
  {
    y := PathPrefix(t, x1, q);
    var y1 := PathPrefix(t, x1, q + [c1]);
    var y2 := PathPrefix(t, x2, q + [c2]);
    ExtensionIsChild(t, y, y1, c1);
    ExtensionIsChild(t, y, y2, c2);
  }
}
