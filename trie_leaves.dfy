/**
 * What writeLeafsToVector and getAllStringsWithPrefixes compute: the leaves
 * below a node, each once, in ascending order of their strings, and for the
 * whole tree one pair per stored string.
 */
module TrieLeaves {
  import opened Strings
  import opened Trie
  import opened TriePaths
  import opened TriePrefix

  /** The strings of the nodes `ls` are strictly ascending. */
  ghost predicate PathsAscending(t: seq<Node>, ls: seq<nat>)
    requires Linked(t) && forall i :: 0 <= i < |ls| ==> ls[i] < |t|
  {
    forall i, j :: 0 <= i < j < |ls| ==> LexLess(Path(t, ls[i]), Path(t, ls[j]))
  }

  lemma LexLessIrreflexive(a: string)
    ensures !LexLess(a, a)
  {
  }

  /** A leaf whose string extends that of `c` is `c` itself. */
  lemma LeafAncestor(t: seq<Node>, c: nat, x: nat)
    requires Wf(t) && c < |t| && x < |t|
    ensures IsLeaf(t[c]) && Path(t, c) <= Path(t, x) ==> c == x
  {
    if Path(t, c) < Path(t, x) {
      ExtendPrefix(Path(t, x), Path(t, c));
      var k := Path(t, x)[|Path(t, c)|];
      var a := PathPrefix(t, x, Path(t, c) + [k]);
      ExtensionIsChild(t, c, a, k);
    } else if Path(t, c) == Path(t, x) {
      PathInjective(t, c, x);
    }
  }

  /** The leaves under `ks`: those of the child under `ks[0]`, then those under the other keys. */
  lemma LeavesUnderCons(t: seq<Node>, n: nat, ks: seq<char>)
    requires Wf(t) && n < |t| && (forall k :: k in ks ==> k in t[n].children) && ks != []
    ensures var c := t[n].children[ks[0]];
      n < c < |t| && Path(t, c) == Path(t, n) + [ks[0]] &&
      LeavesUnder(t, n, ks) == (if IsLeaf(t[c]) then [c] else Leaves(t, c)) + LeavesUnder(t, n, ks[1..])
  {
    assert ChildLinked(t, n, ks[0]);
    ChildPath(t, n, ks[0]);
  }

  /** The leaves listed under the keys `ks` of `n` lie strictly below `n`, entered through a key of `ks`. */
  lemma {:induction false} LeavesUnderBelow(t: seq<Node>, n: nat, ks: seq<char>, x: nat)
    requires Wf(t) && n < |t| && (forall k :: k in ks ==> k in t[n].children)
    requires x in LeavesUnder(t, n, ks)
    ensures x < |t| && Path(t, n) < Path(t, x) && Path(t, x)[|Path(t, n)|] in ks
    decreases |t| - n, 0, |ks|
  {
    var c := t[n].children[ks[0]];
    LeavesUnderCons(t, n, ks);
    var head := if IsLeaf(t[c]) then [c] else Leaves(t, c);
    if x in head {
      if !IsLeaf(t[c]) {
        LeavesBelow(t, c, x);
      }
      KeyAfterPrefix(Path(t, n), ks[0], Path(t, x));
    } else {
      LeavesUnderBelow(t, n, ks[1..], x);
      InTail(Path(t, x)[|Path(t, n)|], ks);
    }
  }

  /** writeLeafsToVector never lists the node it was called on: every leaf lies strictly below it. */
  lemma {:induction false} LeavesBelow(t: seq<Node>, n: nat, x: nat)
    requires Wf(t) && n < |t| && x in Leaves(t, n)
    ensures x < |t| && Path(t, n) < Path(t, x)
    decreases |t| - n, 1, 0
  {
    LeavesUnderBelow(t, n, SortedKeys(t[n].children.Keys), x);
  }

  /** Every leaf below a child of `n` whose key is in `ks` is listed under `ks`. */
  lemma {:induction false} LeavesUnderCover(t: seq<Node>, n: nat, ks: seq<char>, x: nat)
    requires Wf(t) && n < |t| && (forall k :: k in ks ==> k in t[n].children) && x < |t|
    ensures IsLeaf(t[x]) && Path(t, n) < Path(t, x) && Path(t, x)[|Path(t, n)|] in ks ==>
            x in LeavesUnder(t, n, ks)
    decreases |t| - n, 0, |ks|
  {
    if IsLeaf(t[x]) && Path(t, n) < Path(t, x) && Path(t, x)[|Path(t, n)|] in ks {
      var c := t[n].children[ks[0]];
      LeavesUnderCons(t, n, ks);
      var head := if IsLeaf(t[c]) then [c] else Leaves(t, c);
      if Path(t, x)[|Path(t, n)|] == ks[0] {
        ExtendPrefix(Path(t, x), Path(t, n));
        assert Path(t, c) <= Path(t, x);
        LeafAncestor(t, c, x);
        if !IsLeaf(t[c]) {
          if Path(t, c) == Path(t, x) {
            PathInjective(t, c, x);
          }
          LeavesCover(t, c, x);
        }
      } else {
        LeavesUnderCover(t, n, ks[1..], x);
      }
    }
  }

  /** writeLeafsToVector lists every leaf strictly below `n`. */
  lemma {:induction false} LeavesCover(t: seq<Node>, n: nat, x: nat)
    requires Wf(t) && n < |t| && x < |t|
    ensures IsLeaf(t[x]) && Path(t, n) < Path(t, x) ==> x in Leaves(t, n)
    decreases |t| - n, 1, 0
  {
    if IsLeaf(t[x]) && Path(t, n) < Path(t, x) {
      ExtendPrefix(Path(t, x), Path(t, n));
      var k := Path(t, x)[|Path(t, n)|];
      var a := PathPrefix(t, x, Path(t, n) + [k]);
      ExtensionIsChild(t, n, a, k);
      LeavesUnderCover(t, n, SortedKeys(t[n].children.Keys), x);
    }
  }

  /** Every node of `a` spells a string ordered before that of every node of `b`. */
  ghost predicate PathsBefore(t: seq<Node>, a: seq<nat>, b: seq<nat>)
    requires Linked(t) && (forall i :: 0 <= i < |a| ==> a[i] < |t|) && (forall i :: 0 <= i < |b| ==> b[i] < |t|)
  {
    forall i, j :: 0 <= i < |a| && 0 <= j < |b| ==> LexLess(Path(t, a[i]), Path(t, b[j]))
  }

  lemma ConcatAscending(t: seq<Node>, a: seq<nat>, b: seq<nat>)
    requires Linked(t) && (forall i :: 0 <= i < |a| ==> a[i] < |t|) && (forall i :: 0 <= i < |b| ==> b[i] < |t|)
    requires PathsAscending(t, a) && PathsAscending(t, b) && PathsBefore(t, a, b)
    ensures PathsAscending(t, a + b)
  {
    var ab := a + b;
    forall i, j | 0 <= i < j < |ab| ensures LexLess(Path(t, ab[i]), Path(t, ab[j])) {
      if j < |a| {
        assert ab[i] == a[i] && ab[j] == a[j];
      } else if i >= |a| {
        assert ab[i] == b[i - |a|] && ab[j] == b[j - |a|];
      } else {
        assert ab[i] == a[i] && ab[j] == b[j - |a|];
      }
    }
  }

  /** Leaves listed under ascending keys come in ascending order of their strings. */
  lemma {:induction false} LeavesUnderAscending(t: seq<Node>, n: nat, ks: seq<char>)
    requires Wf(t) && n < |t| && (forall k :: k in ks ==> k in t[n].children) && Ascending(ks)
    ensures PathsAscending(t, LeavesUnder(t, n, ks))
    decreases |t| - n, 0, |ks|
  {
    if ks != [] {
      var c := t[n].children[ks[0]];
      LeavesUnderCons(t, n, ks);
      var head := if IsLeaf(t[c]) then [c] else Leaves(t, c);
      var tail := LeavesUnder(t, n, ks[1..]);
      if !IsLeaf(t[c]) {
        LeavesAscending(t, c);
      }
      LeavesUnderAscending(t, n, ks[1..]);
      HeadBeforeTail(t, n, ks, head);
      ConcatAscending(t, head, tail);
    }
  }

  /** The leaves under the first key come before all those under the later keys. */
  lemma HeadBeforeTail(t: seq<Node>, n: nat, ks: seq<char>, head: seq<nat>)
    requires Wf(t) && n < |t| && (forall k :: k in ks ==> k in t[n].children) && Ascending(ks) && ks != []
    requires head == (var c := t[n].children[ks[0]]; if IsLeaf(t[c]) then [c] else Leaves(t, c))
    ensures PathsBefore(t, head, LeavesUnder(t, n, ks[1..]))
  {
    LeavesUnderCons(t, n, ks);
    var tail := LeavesUnder(t, n, ks[1..]);
    forall i, j | 0 <= i < |head| && 0 <= j < |tail| ensures LexLess(Path(t, head[i]), Path(t, tail[j])) {
      HeadBeforeTailAt(t, n, ks, head, i, j);
    }
  }

  lemma HeadBeforeTailAt(t: seq<Node>, n: nat, ks: seq<char>, head: seq<nat>, i: nat, j: nat)
    requires Wf(t) && n < |t| && (forall k :: k in ks ==> k in t[n].children) && Ascending(ks) && ks != []
    requires head == (var c := t[n].children[ks[0]]; if IsLeaf(t[c]) then [c] else Leaves(t, c))
    requires i < |head| && j < |LeavesUnder(t, n, ks[1..])|
    ensures LexLess(Path(t, head[i]), Path(t, LeavesUnder(t, n, ks[1..])[j]))
  {
    var c := t[n].children[ks[0]];
    ChildPath(t, n, ks[0]);
    if !IsLeaf(t[c]) {
      LeavesBelow(t, c, head[i]);
    }
    var y := LeavesUnder(t, n, ks[1..])[j];
    LeavesUnderBelow(t, n, ks[1..], y);
    assert Path(t, n) + [ks[0]] <= Path(t, head[i]);
    ForkByKeys(Path(t, n), Path(t, head[i]), Path(t, y), ks);
  }

  /** writeLeafsToVector lists the leaves in ascending order of their strings. */
  lemma {:induction false} LeavesAscending(t: seq<Node>, n: nat)
    requires Wf(t) && n < |t|
    ensures PathsAscending(t, Leaves(t, n))
    decreases |t| - n, 1, 0
  {
    LeavesUnderAscending(t, n, SortedKeys(t[n].children.Keys));
  }

  /** Each leaf is listed once. */
  lemma LeavesDistinct(t: seq<Node>, n: nat)
    requires Wf(t) && n < |t|
    ensures forall i, j :: 0 <= i < j < |Leaves(t, n)| ==> Leaves(t, n)[i] != Leaves(t, n)[j]
  {
    LeavesAscending(t, n);
    forall i, j | 0 <= i < j < |Leaves(t, n)| ensures Leaves(t, n)[i] != Leaves(t, n)[j] {
      LexLessIrreflexive(Path(t, Leaves(t, n)[i]));
    }
  }
}
