/**
 * What getFullStructure renders for the parts of a tree without branches: a
 * chain of single-child nodes prints as its keys in one line, so a tree that
 * stores a single string prints that string between two NULs.
 */
module TrieRender {
  import opened Strings
  import opened Trie
  import opened TriePaths
  import opened TriePrefix

  /** A node that is neither a leaf nor a branch has its only child first. */
  lemma OnlyChildFirst(t: seq<Node>, n: nat, k: char)
    requires Wf(t) && n < |t| && !IsBranch(t[n]) && k in t[n].children
    ensures FirstChild(t[n]) == Some(t[n].children[k])
  {
  }

  /** A node with exactly one child prints its key and then, unindented, its child. */
  lemma ChainStep(t: seq<Node>, n: nat, offset: nat)
    requires Wf(t) && n < |t| && HaveChildren(t[n]) && !IsBranch(t[n])
    ensures n < FirstChild(t[n]).value < |t|
    ensures FullStructure(t, n, offset, true) == [t[n].key] + FullStructure(t, FirstChild(t[n]).value, offset, true)
  {
    FirstChildLinked(t, n);
  }

  /** The leaf `x` itself prints as its key and "$\n". */
  lemma LeafRendering(t: seq<Node>, x: nat, offset: nat)
    requires Wf(t) && x < |t| && IsLeaf(t[x])
    ensures FullStructure(t, x, offset, true) == [t[x].key] + "$\n"
  {
  }

  /**
   * From a node `n` down to a leaf `x` below it with no branch on the way,
   * getFullStructure(offset, true) prints the key of `n`, the keys below it
   * down to `x`, and "$\n".
   */
  lemma {:induction false} ChainRendering(t: seq<Node>, n: nat, x: nat, offset: nat)
    requires Wf(t) && n < |t| && x < |t|
    requires IsLeaf(t[x]) && Path(t, n) <= Path(t, x) && Unbranched(t, Path(t, n), x)
    ensures FullStructure(t, n, offset, true) == [t[n].key] + Path(t, x)[|Path(t, n)|..] + "$\n"
    decreases |t| - n
  {
    if Path(t, n) == Path(t, x) {
      PathInjective(t, n, x);
      LeafRendering(t, x, offset);
      assert Path(t, x)[|Path(t, n)|..] == [];
    } else {
      ExtendPrefix(Path(t, x), Path(t, n));
      var k := Path(t, x)[|Path(t, n)|];
      var a := PathPrefix(t, x, Path(t, n) + [k]);
      ExtensionIsChild(t, n, a, k);
      assert ChildLinked(t, n, k);
      OnlyChildFirst(t, n, k);
      ChainStep(t, n, offset);
      ChainRendering(t, a, x, offset);
      DropOne([t[n].key], Path(t, x), |Path(t, n)|);
      Regroup([t[n].key], [k] + Path(t, x)[|Path(t, a)|..], "$\n");
      Regroup([t[n].key], [k], Path(t, x)[|Path(t, a)|..]);
      Regroup([k], Path(t, x)[|Path(t, a)|..], "$\n");
    }
  }

  /** Below a branch two different strings are stored. */
  lemma TwoStoredAtBranch(t: seq<Node>, y: nat) returns (s1: string, s2: string)
    requires Wf(t) && Complete(t) && y < |t| && IsBranch(t[y])
    ensures s1 in Stored(t) && s2 in Stored(t) && s1 != s2
    ensures Path(t, y) < s1 + [NUL] && Path(t, y) < s2 + [NUL]
  {
    var a, b :| a in t[y].children && b in t[y].children && a != b;
    s1 := OtherString(t, y, a);
    s2 := OtherString(t, y, (s1 + [NUL])[|Path(t, y)|]);
  }

  /** A complete tree that stores a single string has no branch. */
  lemma SoleNoBranch(t: seq<Node>, s: string, y: nat)
    requires Wf(t) && Complete(t) && y < |t|
    ensures Stored(t) == {s} ==> !IsBranch(t[y])
  {
    if IsBranch(t[y]) {
      var s1, s2 := TwoStoredAtBranch(t, y);
    }
  }

  /** getFullStructure() on the root of a tree storing only `s` prints NUL, `s`, NUL and "$\n". */
  lemma SoleRendering(t: seq<Node>, s: string)
    requires Wf(t) && Complete(t) && Stored(t) == {s}
    ensures FullStructure(t, 0, 0, true) == [NUL] + s + [NUL] + "$\n"
  {
    var x := StoredTerminator(t, s);
    assert Path(t, 0) == [];
    forall y | 0 <= y < |t| && Path(t, 0) <= Path(t, y) <= Path(t, x) ensures !IsBranch(t[y]) {
      SoleNoBranch(t, s, y);
    }
    ChainRendering(t, 0, x, 0);
    assert Path(t, x)[|Path(t, 0)|..] == s + [NUL];
    Regroup([NUL], s, [NUL]);
  }
}
