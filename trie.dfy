/**
 * The PrefixNode character trie of main.cpp, held in an arena.
 *
 * Every PrefixNode becomes an entry of a `seq<Node>`: its key (`myKey`),
 * the index of its parent (`parent`, -1 for the root, which sits at index 0)
 * and its children by key (`children`, a std::map<char, PrefixNode*>).
 * A stored string ends in a terminator child whose key is NUL.
 *
 * This module holds the tree invariant, the read-only queries of PrefixNode
 * as functions, and the specifications (Path, Stored, Leaves, Entries) that
 * the methods of PrefixTrees are proved against.
 */
module Trie {
  import opened Strings

  /** The key of the root and of every terminator. */
  const NUL: char := '\0'

  datatype Node = Node(key: char, parent: int, children: map<char, nat>)

  /** The undefined behaviours of main.cpp, reported instead of committed. */
  datatype Fault =
    | EmptyString  // getLeafOf("") computes s.size() - 1 on an empty string
    | MissingKey   // children[k] on an absent key yields a null child
    | NullParent   // getNearestBranch steps through the root's null parent

  datatype Result<T> = Ok(value: T) | Err(fault: Fault)

  datatype Option<T> = None | Some(value: T)

  // ---------------------------------------------------------------- queries

  predicate HaveChildren(n: Node)
  {
    |n.children| > 0
  }

  function IsLeaf(n: Node): (r: bool)
    ensures r <==> !HaveChildren(n)
  {
    |n.children| <= 0
  }

  /** A branch has two or more children: exactly when two distinct keys are present. */
  function IsBranch(n: Node): (r: bool)
    ensures r ==> HaveChildren(n)
    ensures r <==> exists a, b :: a in n.children && b in n.children && a != b
  {
    TwoKeys(n.children.Keys);
    |n.children| > 1
  }

  lemma TwoKeys(ks: set<char>)
    ensures |ks| > 1 <==> exists a, b :: a in ks && b in ks && a != b
  {
    if |ks| > 1 {
      var a :| a in ks;
      assert |ks - {a}| > 0;
      var b :| b in ks - {a};
    }
    if a, b :| a in ks && b in ks && a != b {
      assert b in ks - {a};
      assert |ks - {a}| > 0;
    }
  }

  /** The child with the smallest key (children.begin()), or none for a leaf. */
  function FirstChild(n: Node): (r: Option<nat>)
    ensures r.Some? <==> HaveChildren(n)
    ensures r.Some? ==> exists k :: k in n.children && n.children[k] == r.value &&
                                    forall k' :: k' in n.children ==> k <= k'
  {
    if |n.children| == 0 then None
    else
      var k := MinKey(n.children.Keys);
      Some(n.children[k])
  }

  // ------------------------------------------------------------- invariant

  /** Parents precede their children: the arena only grows by appending. */
  ghost predicate Linked(t: seq<Node>)
  {
    && |t| > 0
    && t[0].parent == -1
    && forall i :: 0 < i < |t| ==> 0 <= t[i].parent < i
  }

  /** The child of `i` under `c` points back to `i` and carries the key `c`. */
  ghost predicate ChildLinked(t: seq<Node>, i: nat, c: char)
    requires i < |t| && c in t[i].children
  {
    var j := t[i].children[c];
    i < j < |t| && t[j].parent == i && t[j].key == c
  }

  /** Node `i` is found in the children of its parent under its own key. */
  ghost predicate ParentLinked(t: seq<Node>, i: nat)
    requires Linked(t) && 0 < i < |t|
  {
    t[i].key in t[t[i].parent].children && t[t[i].parent].children[t[i].key] == i
  }

  /** The tree invariant kept by every operation that builds the tree. */
  ghost predicate Wf(t: seq<Node>)
  {
    && Linked(t)
    && t[0].key == NUL
    && (forall i, c :: 0 <= i < |t| && c in t[i].children ==> ChildLinked(t, i, c))
    && (forall i :: 0 < i < |t| ==> ParentLinked(t, i))
    && (forall i :: 0 < i < |t| && t[i].key == NUL ==> t[i].children == map[])
  }

  /** Every leaf apart from the root is a terminator: nodes exist only on the way to one. */
  ghost predicate Complete(t: seq<Node>)
  {
    forall i :: 0 < i < |t| && IsLeaf(t[i]) ==> t[i].key == NUL
  }

  /** The keys from the root (excluded) down to `n` (included). */
  ghost function Path(t: seq<Node>, n: nat): string
    requires Linked(t) && n < |t|
    decreases n
  {
    if n == 0 then [] else Path(t, t[n].parent) + [t[n].key]
  }

  ghost function Paths(t: seq<Node>): set<string>
    requires Linked(t)
  {
    set n | 0 <= n < |t| :: Path(t, n)
  }

  /** The stored strings: the paths of the terminators, without their NUL. */
  ghost function Stored(t: seq<Node>): set<string>
    requires Linked(t)
  {
    set n | 0 < n < |t| && t[n].key == NUL :: Path(t, t[n].parent)
  }

  // ------------------------------------------------------ read-only walks

  /** getLeafOf(s, index) called on node `n`: follows s[index..] one key at a time. */
  function LeafOf(t: seq<Node>, n: nat, s: string, index: nat): (r: Result<nat>)
    requires Wf(t) && n < |t| && index < |s|
    ensures r.Err? ==> r.fault == MissingKey
    ensures r.Ok? ==> r.value < |t| && Path(t, r.value) == Path(t, n) + s[index..]
    decreases |s| - index
  {
    if s[index] !in t[n].children then Err(MissingKey)
    else
      var c := t[n].children[s[index]];
      assert ChildLinked(t, n, s[index]);
      assert Path(t, n) + s[index..] == Path(t, c) + s[index + 1..];
      if index == |s| - 1 then Ok(c)
      else LeafOf(t, c, s, index + 1)
  }

  /**
   * getNearestBranch(lastKey) called on node `n`: climbs until a node with two
   * or more children and returns its child under the key the climb came from.
   */
  function NearestBranch(t: seq<Node>, n: nat, lastKey: char): (r: Result<nat>)
    requires Wf(t) && n < |t|
    ensures r.Ok? ==> 0 < r.value < |t| && IsBranch(t[t[r.value].parent])
    ensures r.Err? ==> r.fault != EmptyString
    decreases n
  {
    if IsBranch(t[n]) then
      if lastKey in t[n].children then
        assert ChildLinked(t, n, lastKey);
        Ok(t[n].children[lastKey])
      else Err(MissingKey)
    else if t[n].parent < 0 then Err(NullParent)
    else NearestBranch(t, t[n].parent, t[n].key)
  }

  /** What getPrefix(s) on the root computes, with getStringToRoot read as Path. */
  ghost function PrefixOf(t: seq<Node>, s: string): Result<string>
    requires Wf(t)
  {
    if |s| == 0 then Err(EmptyString)
    else match LeafOf(t, 0, s, 0)
      case Err(f) => Err(f)
      case Ok(leaf) =>
        match NearestBranch(t, leaf, NUL)
        case Err(f) => Err(f)
        case Ok(b) => Ok(Path(t, b))
  }

  /** Every node listed in `r` is a leaf placed after `n` in the arena. */
  ghost predicate LeafList(t: seq<Node>, n: nat, r: seq<nat>)
  {
    forall i :: 0 <= i < |r| ==> n < r[i] < |t| && IsLeaf(t[r[i]])
  }

  lemma LeafListJoin(t: seq<Node>, n: nat, a: seq<nat>, b: seq<nat>)
    requires LeafList(t, n, a) && LeafList(t, n, b)
    ensures LeafList(t, n, a + b)
  {
  }

  lemma LeafListWiden(t: seq<Node>, n: nat, m: nat, a: seq<nat>)
    requires n <= m && LeafList(t, m, a)
    ensures LeafList(t, n, a)
  {
  }

  /** The leaves below `n`, children visited in ascending key order (writeLeafsToVector). */
  ghost function Leaves(t: seq<Node>, n: nat): (r: seq<nat>)
    requires Wf(t) && n < |t|
    ensures forall i :: 0 <= i < |r| ==> n < r[i] < |t| && IsLeaf(t[r[i]])
    decreases |t| - n, 1, 0
  {
    LeavesUnder(t, n, SortedKeys(t[n].children.Keys))
  }

  /** The leaves below the children of `n` under the keys `ks`, in that order. */
  ghost function LeavesUnder(t: seq<Node>, n: nat, ks: seq<char>): (r: seq<nat>)
    requires Wf(t) && n < |t| && forall k :: k in ks ==> k in t[n].children
    ensures LeafList(t, n, r)
    decreases |t| - n, 0, |ks|
  {
    if ks == [] then []
    else
      var c := t[n].children[ks[0]];
      assert ChildLinked(t, n, ks[0]);
      var head := if IsLeaf(t[c]) then [c] else Leaves(t, c);
      assert LeafList(t, n, head);
      var rest := LeavesUnder(t, n, ks[1..]);
      LeafListJoin(t, n, head, rest);
      head + rest
  }

  /** One pair of getAllStringsWithPrefixes: the leaf's string and its prefix. */
  ghost function EntryOf(t: seq<Node>, leaf: nat): (r: Result<(string, string)>)
    requires Wf(t) && 0 < leaf < |t|
    ensures r.Ok? ==> r.value.0 == Path(t, leaf)
    ensures r.Err? <==> NearestBranch(t, leaf, NUL).Err?
  {
    match NearestBranch(t, leaf, NUL)
    case Err(f) => Err(f)
    case Ok(b) => Ok((Path(t, leaf), Path(t, b)))
  }

  /** The values of `rs` in order, or the fault of the first `Err` among them. */
  function Collect<T>(rs: seq<Result<T>>): Result<seq<T>>
  {
    if rs == [] then Ok([])
    else match Collect(rs[..|rs| - 1])
      case Err(f) => Err(f)
      case Ok(vs) =>
        match rs[|rs| - 1]
        case Err(f) => Err(f)
        case Ok(v) => Ok(vs + [v])
  }

  /** The pair, or the fault, of each leaf in `leaves`. */
  ghost function EntryResults(t: seq<Node>, leaves: seq<nat>): (r: seq<Result<(string, string)>>)
    requires Wf(t) && forall i :: 0 <= i < |leaves| ==> 0 < leaves[i] < |t|
    ensures |r| == |leaves| && forall i :: 0 <= i < |leaves| ==> r[i] == EntryOf(t, leaves[i])
  {
    seq(|leaves|, i requires 0 <= i < |leaves| => EntryOf(t, leaves[i]))
  }

  /** The pairs for `leaves`, in order; the first leaf whose walk faults decides the fault. */
  ghost function Entries(t: seq<Node>, leaves: seq<nat>): Result<seq<(string, string)>>
    requires Wf(t) && forall i :: 0 <= i < |leaves| ==> 0 < leaves[i] < |t|
  {
    Collect(EntryResults(t, leaves))
  }

  // -------------------------------------------------------------- rendering

  function Spaces(n: nat): (r: string)
    ensures |r| == n && forall i :: 0 <= i < n ==> r[i] == ' '
  {
    if n == 0 then [] else Spaces(n - 1) + [' ']
  }

  /** The box-drawing corner that marks an indented child. */
  const Corner: string := "\U{2514}"

  lemma FirstChildLinked(t: seq<Node>, n: nat)
    requires Wf(t) && n < |t| && HaveChildren(t[n])
    ensures n < FirstChild(t[n]).value < |t|
    ensures t[FirstChild(t[n]).value].parent == n
  {
    var k :| k in t[n].children && t[n].children[k] == FirstChild(t[n]).value;
    assert ChildLinked(t, n, k);
  }

  /** A rendering is complete when it ends with the "$" that marks a leaf and a newline. */
  predicate EndsMarked(r: string)
  {
    |r| >= 2 && r[|r| - 2..] == "$\n"
  }

  lemma MarkedAfter(a: string, b: string)
    requires EndsMarked(b)
    ensures EndsMarked(a + b)
  {
    assert (a + b)[|a + b| - 2..] == b[|b| - 2..];
  }

  /** getFullStructure(offset, goThrough) called on node `n`. */
  function FullStructure(t: seq<Node>, n: nat, offset: nat, goThrough: bool): (r: string)
    requires Wf(t) && n < |t|
    ensures EndsMarked(r)
    decreases |t| - n, 1, 0
  {
    var lead := if goThrough || t[n].key == NUL then "" else Spaces(offset) + Corner;
    var head := lead + [t[n].key];
    if IsLeaf(t[n]) then
      MarkedAfter(head, "$\n");
      head + "$\n"
    else
      FirstChildLinked(t, n);
      var first := FirstChild(t[n]).value;
      if IsBranch(t[n]) then
        var keys := SortedKeys(t[n].children.Keys);
        var line := if t[first].key != NUL then head + "\n" else head;
        var rest := ChildStructures(t, n, keys, offset + 1);
        MarkedAfter(line, rest);
        line + rest
      else
        var rest := FullStructure(t, first, offset, true);
        MarkedAfter(head, rest);
        head + rest
  }

  /** The renderings of the children of `n` under the non-empty key list `ks`, concatenated. */
  function ChildStructures(t: seq<Node>, n: nat, ks: seq<char>, offset: nat): (r: string)
    requires Wf(t) && n < |t| && ks != [] && forall k :: k in ks ==> k in t[n].children
    ensures EndsMarked(r)
    decreases |t| - n, 0, |ks|
  {
    var c := t[n].children[ks[0]];
    assert ChildLinked(t, n, ks[0]);
    var first := FullStructure(t, c, offset, false);
    if |ks| == 1 then first
    else
      var rest := ChildStructures(t, n, ks[1..], offset);
      MarkedAfter(first, rest);
      first + rest
  }
}
