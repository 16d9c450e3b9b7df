/**
 * How the arena changes when addChildren creates a node: the node is
 * appended, its parent gains one key, the strings of the older nodes stay as
 * they were, and the tree invariant is kept.
 */
module TrieGrowth {
  import opened Strings
  import opened Trie
  import opened TriePaths

  /** `u` extends `t`: the older nodes keep their keys and parents (their children may grow). */
  ghost predicate Grows(t: seq<Node>, u: seq<Node>)
  {
    |t| <= |u| && forall i :: 0 <= i < |t| ==> u[i].key == t[i].key && u[i].parent == t[i].parent
  }

  /** Every entry of `a` is in `b`, unchanged. */
  ghost predicate SubMap(a: map<char, nat>, b: map<char, nat>)
  {
    forall k :: k in a ==> k in b && b[k] == a[k]
  }

  /** No child entry of `t` is removed or redirected in `u`: emplace never replaces a key. */
  ghost predicate KeepsChildren(t: seq<Node>, u: seq<Node>)
  {
    |t| <= |u| && forall i :: 0 <= i < |t| ==> SubMap(t[i].children, u[i].children)
  }

  /** Every leaf apart from the root, and apart from `m`, is a terminator. */
  ghost predicate CompleteBut(t: seq<Node>, m: nat)
  {
    forall i :: 0 < i < |t| && i != m && IsLeaf(t[i]) ==> t[i].key == NUL
  }

  /** The arena after `new PrefixNode(this, c)` is emplaced into the children of `n`. */
  function Attach(t: seq<Node>, n: nat, c: char): (r: seq<Node>)
    requires n < |t|
    ensures |r| == |t| + 1 && r[|t|] == Node(c, n, map[]) && Grows(t, r)
    ensures r[n].children == t[n].children[c := |t|]
    ensures c !in t[n].children ==> KeepsChildren(t, r)
    ensures forall i :: 0 <= i < |t| && i != n ==> r[i] == t[i]
  {
    t[n := t[n].(children := t[n].children[c := |t|])] + [Node(c, n, map[])]
  }

  /** Growing the arena leaves the string of every older node as it was. */
  lemma {:induction false} PathKept(t: seq<Node>, u: seq<Node>, i: nat)
    requires Linked(t) && Linked(u) && Grows(t, u) && i < |t|
    ensures Path(u, i) == Path(t, i)
    decreases i
  {
    if i != 0 {
      PathKept(t, u, t[i].parent);
    }
  }

  lemma PathsKept(t: seq<Node>, u: seq<Node>)
    requires Linked(t) && Linked(u) && Grows(t, u)
    ensures forall i :: 0 <= i < |t| ==> Path(u, i) == Path(t, i)
  {
    forall i | 0 <= i < |t| ensures Path(u, i) == Path(t, i) {
      PathKept(t, u, i);
    }
  }

  lemma AttachLinked(t: seq<Node>, n: nat, c: char)
    requires Linked(t) && n < |t|
    ensures Linked(Attach(t, n, c))
  {
  }

  /** After Attach every child entry still points at a node that points back. */
  lemma AttachChildLinked(t: seq<Node>, n: nat, c: char)
    requires Wf(t) && n < |t| && c !in t[n].children
    ensures var r := Attach(t, n, c);
      forall i, k :: 0 <= i < |r| && k in r[i].children ==> ChildLinked(r, i, k)
  {
    var r := Attach(t, n, c);
    forall i, k | 0 <= i < |r| && k in r[i].children ensures ChildLinked(r, i, k) {
      if i != n || k != c {
        assert ChildLinked(t, i, k);
      }
    }
  }

  /** After Attach every node but the root is found under its key in its parent. */
  lemma AttachParentLinked(t: seq<Node>, n: nat, c: char)
    requires Wf(t) && n < |t| && c !in t[n].children
    ensures Linked(Attach(t, n, c))
    ensures var r := Attach(t, n, c); forall i :: 0 < i < |r| ==> ParentLinked(r, i)
  {
    var r := Attach(t, n, c);
    AttachLinked(t, n, c);
    forall i | 0 < i < |r| ensures ParentLinked(r, i) {
      if i < |t| {
        assert ParentLinked(t, i);
      }
    }
  }

  /** Attaching a new key below a node that is not a terminator keeps the tree invariant. */
  lemma AttachWf(t: seq<Node>, n: nat, c: char)
    requires Wf(t) && n < |t| && c !in t[n].children && (n == 0 || t[n].key != NUL)
    ensures Wf(Attach(t, n, c))
  {
    AttachLinked(t, n, c);
    AttachChildLinked(t, n, c);
    AttachParentLinked(t, n, c);
  }

  /** The new node stays a leaf: with key NUL it completes the tree, otherwise it is the one leaf still open. */
  lemma AttachComplete(t: seq<Node>, n: nat, c: char)
    requires n < |t| && CompleteBut(t, n)
    ensures c == NUL ==> Complete(Attach(t, n, c))
    ensures CompleteBut(Attach(t, n, c), |t|)
  {
  }

  lemma GrowsTransitive(t: seq<Node>, u: seq<Node>, v: seq<Node>)
    requires Grows(t, u) && Grows(u, v) && KeepsChildren(t, u) && KeepsChildren(u, v)
    ensures Grows(t, v) && KeepsChildren(t, v)
  {
  }

  /**
   * After addChildren(c) on `n` (a no-op when `c` was there): with key NUL
   * the tree is complete, otherwise only the child under `c` may be an open leaf.
   */
  lemma AddedComplete(t: seq<Node>, u: seq<Node>, n: nat, c: char, child: nat)
    requires n < |t| && CompleteBut(t, n)
    requires c in t[n].children ==> u == t
    requires c !in t[n].children ==> u == Attach(t, n, c) && child == |t|
    ensures c == NUL ==> Complete(u)
    ensures CompleteBut(u, child)
  {
    if c !in t[n].children {
      AttachComplete(t, n, c);
    }
  }

  /** What Attach stores was stored before, or is the string of `n` when the new key is NUL. */
  lemma AttachStoredWithin(t: seq<Node>, n: nat, c: char, s: string)
    requires Linked(t) && n < |t|
    ensures s in Stored(Attach(t, n, c)) ==> s in Stored(t) || (c == NUL && s == Path(t, n))
  {
    var r := Attach(t, n, c);
    AttachLinked(t, n, c);
    if s in Stored(r) {
      var i :| 0 < i < |r| && r[i].key == NUL && Path(r, r[i].parent) == s;
      var p := r[i].parent;
      PathKept(t, r, p);
      if i < |t| {
        assert t[i].key == NUL && t[i].parent == p;
        assert s in Stored(t);
      } else {
        assert p == n && c == NUL;
      }
    }
  }

  /** Attach keeps every stored string, and stores the string of `n` when the new key is NUL. */
  lemma AttachStoredKeeps(t: seq<Node>, n: nat, c: char, s: string)
    requires Linked(t) && n < |t|
    ensures s in Stored(t) || (c == NUL && s == Path(t, n)) ==> s in Stored(Attach(t, n, c))
  {
    var r := Attach(t, n, c);
    AttachLinked(t, n, c);
    if s in Stored(t) {
      var i :| 0 < i < |t| && t[i].key == NUL && Path(t, t[i].parent) == s;
      PathKept(t, r, t[i].parent);
      assert Path(r, r[i].parent) == s;
    } else if c == NUL && s == Path(t, n) {
      PathKept(t, r, n);
      assert Path(r, r[|t|].parent) == s;
    }
  }

  /** Attaching NUL below `n` stores the string of `n`; attaching any other key stores nothing new. */
  lemma AttachStored(t: seq<Node>, n: nat, c: char)
    requires Linked(t) && n < |t|
    ensures c != NUL ==> Stored(Attach(t, n, c)) == Stored(t)
    ensures c == NUL ==> Stored(Attach(t, n, c)) == Stored(t) + {Path(t, n)}
  {
    forall s ensures s in Stored(Attach(t, n, c)) <==> s in Stored(t) || (c == NUL && s == Path(t, n)) {
      AttachStoredWithin(t, n, c, s);
      AttachStoredKeeps(t, n, c, s);
    }
  }

  /** A node with a NUL child spells a stored string. */
  lemma NulChildStored(t: seq<Node>, n: nat)
    requires Wf(t) && n < |t| && NUL in t[n].children
    ensures Path(t, n) in Stored(t)
  {
    assert ChildLinked(t, n, NUL);
  }

  /**
   * When `Path(n) + s[index..]` is already stored, the next key add would
   * attach below `n` (NUL once the string is used up) is already there.
   */
  lemma StoredNextKey(t: seq<Node>, n: nat, s: string, index: nat)
    requires Wf(t) && n < |t| && index <= |s| && Path(t, n) + s[index..] in Stored(t)
    ensures (if index == |s| then NUL else s[index]) in t[n].children
  {
    var q := Path(t, n) + s[index..];
    var x := StoredTerminator(t, q);
    var k := if index == |s| then NUL else s[index];
    var w := s[index..] + [NUL];
    Regroup(Path(t, n), s[index..], [NUL]);
    assert Path(t, x) == Path(t, n) + w;
    assert w[0] == k;
    HeadAfterPrefix(Path(t, n), w);
    var a := PathPrefix(t, x, Path(t, n) + [k]);
    ExtensionIsChild(t, n, a, k);
  }

  /**
   * One step of add(s, index) below `n` that is not the last: the child under
   * s[index] was attached or found (t0 to t1), and the rest of the string was
   * added below it (t1 to t2). Together they add `Path(n) + s[index..]`.
   */
  lemma AddStep(t0: seq<Node>, t1: seq<Node>, t2: seq<Node>, n: nat, child: nat, s: string, index: nat)
    requires Wf(t0) && Wf(t1) && Wf(t2) && n < |t0| && index < |s| && child < |t1|
    requires Grows(t0, t1) && KeepsChildren(t0, t1) && Grows(t1, t2) && KeepsChildren(t1, t2)
    requires Path(t1, child) == Path(t0, n) + [s[index]] && Stored(t1) == Stored(t0)
    requires s[index] in t0[n].children ==> t1 == t0
    requires Stored(t2) == Stored(t1) + {Path(t1, child) + s[index + 1..]}
    requires Path(t1, child) + s[index + 1..] in Stored(t1) ==> t2 == t1
    ensures Grows(t0, t2) && KeepsChildren(t0, t2)
    ensures Stored(t2) == Stored(t0) + {Path(t0, n) + s[index..]}
    ensures Path(t0, n) + s[index..] in Stored(t0) ==> t2 == t0
  {
    var q := Path(t0, n) + s[index..];
    DropOne(Path(t0, n), s, index);
    assert q == Path(t1, child) + s[index + 1..];
    if q in Stored(t0) {
      StoredNextKey(t0, n, s, index);
    }
    GrowsTransitive(t0, t1, t2);
  }
}
