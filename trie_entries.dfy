/**
 * What getAllStringsWithPrefixes returns for a whole tree: one pair per
 * stored string, in ascending order, each made of the string followed by NUL
 * and the prefix getPrefix gives for it; it faults exactly when the tree
 * stores a single string.
 */
module TrieEntries {
  import opened Strings
  import opened Trie
  import opened TriePaths
  import opened TriePrefix
  import opened TrieLeaves

  // Collect on its own: these facts hold for any sequence of results.

  /** Collect peels off the last result. */
  lemma CollectLast<T>(rs: seq<Result<T>>)
    requires rs != []
    ensures var init, last := rs[..|rs| - 1], rs[|rs| - 1];
      (Collect(rs).Err? <==> Collect(init).Err? || last.Err?) &&
      (Collect(rs).Ok? ==> Collect(init).Ok? && last.Ok? && Collect(rs).value == Collect(init).value + [last.value])
  {
  }

  /** There is one value per result. */
  lemma {:induction false} CollectLength<T>(rs: seq<Result<T>>)
    ensures Collect(rs).Ok? ==> |Collect(rs).value| == |rs|
    decreases |rs|
  {
    if rs != [] && Collect(rs).Ok? {
      CollectLast(rs);
      CollectLength(rs[..|rs| - 1]);
    }
  }

  /** The value at position `i` is the one the result at position `i` holds. */
  lemma {:induction false} CollectAt<T>(rs: seq<Result<T>>, i: nat)
    requires i < |rs| && Collect(rs).Ok?
    ensures |Collect(rs).value| == |rs| && rs[i] == Ok(Collect(rs).value[i])
    decreases |rs|
  {
    var last := |rs| - 1;
    var init := rs[..last];
    CollectLast(rs);
    CollectLength(init);
    var vs, v := Collect(init).value, rs[last].value;
    if i < last {
      assert rs[i] == init[i];
      CollectAt(init, i);
      assert (vs + [v])[i] == vs[i];
    } else {
      assert (vs + [v])[i] == v;
    }
  }

  /** When Collect faults, one of the results is an `Err`. */
  lemma {:induction false} CollectErrWitness<T>(rs: seq<Result<T>>) returns (i: nat)
    requires Collect(rs).Err?
    ensures i < |rs| && rs[i].Err?
    decreases |rs|
  {
    var last := |rs| - 1;
    var init := rs[..last];
    CollectLast(rs);
    if Collect(init).Err? {
      i := CollectErrWitness(init);
      assert rs[i] == init[i];
    } else {
      i := last;
    }
  }

  /** One `Err` among the results makes Collect fault. */
  lemma {:induction false} CollectErrFrom<T>(rs: seq<Result<T>>, i: nat)
    requires i < |rs| && rs[i].Err?
    ensures Collect(rs).Err?
    decreases |rs|
  {
    var last := |rs| - 1;
    var init := rs[..last];
    CollectLast(rs);
    if i < last {
      assert rs[i] == init[i];
      CollectErrFrom(init, i);
    } else {
      assert rs[last].Err?;
    }
  }

  /** One more result: its value is appended, or its fault becomes the outcome. */
  lemma CollectStep<T>(rs: seq<Result<T>>, i: nat, vs: seq<T>)
    requires i < |rs| && Collect(rs[..i]) == Ok(vs)
    ensures rs[i].Ok? ==> Collect(rs[..i + 1]) == Ok(vs + [rs[i].value])
    ensures rs[i].Err? ==> Collect(rs[..i + 1]) == Err(rs[i].fault)
  {
    assert rs[..i + 1][..i] == rs[..i];
  }

  /** Once the results up to `i` fault, Collect over all of them gives that fault. */
  lemma {:induction false} CollectErrExtends<T>(rs: seq<Result<T>>, i: nat)
    requires i <= |rs|
    ensures Collect(rs[..i]).Err? ==> Collect(rs) == Collect(rs[..i])
    decreases |rs| - i
  {
    if Collect(rs[..i]).Err? && i < |rs| {
      assert rs[..i + 1][..i] == rs[..i];
      CollectErrExtends(rs, i + 1);
    } else if i == |rs| {
      assert rs[..i] == rs;
    }
  }

  // Collect applied to the pairs of the leaves.

  /** The pairs for `leaves` line up with the leaves. */
  lemma EntriesAligned(t: seq<Node>, leaves: seq<nat>)
    requires Wf(t) && forall i :: 0 <= i < |leaves| ==> 0 < leaves[i] < |t|
    ensures Entries(t, leaves).Ok? ==>
      |Entries(t, leaves).value| == |leaves| &&
      forall i :: 0 <= i < |leaves| ==> EntryOf(t, leaves[i]) == Ok(Entries(t, leaves).value[i])
  {
    var rs := EntryResults(t, leaves);
    CollectLength(rs);
    if Collect(rs).Ok? {
      forall i | 0 <= i < |leaves| ensures EntryOf(t, leaves[i]) == Ok(Collect(rs).value[i]) {
        CollectAt(rs, i);
      }
    }
  }

  /** The pairs for `leaves` fault exactly when the climb from one of the leaves does. */
  lemma EntriesErr(t: seq<Node>, leaves: seq<nat>)
    requires Wf(t) && forall i :: 0 <= i < |leaves| ==> 0 < leaves[i] < |t|
    ensures Entries(t, leaves).Err? <==> exists i :: 0 <= i < |leaves| && EntryOf(t, leaves[i]).Err?
  {
    var rs := EntryResults(t, leaves);
    if Collect(rs).Err? {
      var i := CollectErrWitness(rs);
    }
    forall i | 0 <= i < |leaves| && EntryOf(t, leaves[i]).Err? ensures Collect(rs).Err? {
      CollectErrFrom(rs, i);
    }
  }

  /** When the climb from `leaf` finds `b`, the pair of `leaf` is its string and the string of `b`. */
  lemma EntryFound(t: seq<Node>, leaf: nat, b: nat)
    requires Wf(t) && 0 < leaf < |t| && NearestBranch(t, leaf, NUL) == Ok(b)
    ensures EntryOf(t, leaf) == Ok((Path(t, leaf), Path(t, b)))
  {
  }

  /** When the climb from `leaf` faults, so does its pair, with the same fault. */
  lemma EntryFault(t: seq<Node>, leaf: nat, f: Fault)
    requires Wf(t) && 0 < leaf < |t| && NearestBranch(t, leaf, NUL) == Err(f)
    ensures EntryOf(t, leaf) == Err(f)
  {
  }

  /** The pair at position `i` is the pair of the leaf at position `i`. */
  lemma EntryAt(t: seq<Node>, leaves: seq<nat>, i: nat)
    requires Wf(t) && (forall k :: 0 <= k < |leaves| ==> 0 < leaves[k] < |t|) && i < |leaves|
    requires Entries(t, leaves).Ok?
    ensures |Entries(t, leaves).value| == |leaves| && EntryOf(t, leaves[i]) == Ok(Entries(t, leaves).value[i])
  {
    CollectAt(EntryResults(t, leaves), i);
  }

  lemma SingletonSize(ss: set<string>)
    ensures |ss| == 1 <==> exists s :: s in ss && ss == {s}
  {
    if |ss| == 1 {
      var s :| s in ss;
      assert |ss - {s}| == 0;
      assert ss == {s};
    }
  }

  /** A terminator never branches, so its climb starts over at its parent. */
  lemma TerminatorClimb(t: seq<Node>, x: nat)
    requires Wf(t) && 0 < x < |t| && t[x].key == NUL
    ensures NearestBranch(t, x, NUL) == NearestBranch(t, t[x].parent, NUL)
  {
  }

  /** A climb from the node spelling a stored `s` that finds a branch shows another stored string. */
  lemma ClimbShared(t: seq<Node>, leaf: nat, s: string)
    requires Wf(t) && Complete(t) && leaf < |t| && Path(t, leaf) == s && s in Stored(t)
    ensures NearestBranch(t, leaf, NUL).Ok? ==> Stored(t) != {s}
  {
    NearestBranchWalk(t, leaf, NUL);
    if NearestBranch(t, leaf, NUL).Ok? {
      var c := NearestBranch(t, leaf, NUL).value;
      PathStep(t, c);
      var s2 := OtherString(t, t[c].parent, t[c].key);
      assert (s + [NUL])[|Path(t, t[c].parent)|] == t[c].key;
      assert s2 !in {s};
    }
  }

  /** A climb from the node spelling a stored `s` that faults shows `s` stored alone. */
  lemma ClimbSole(t: seq<Node>, leaf: nat, s: string)
    requires Wf(t) && leaf < |t| && Path(t, leaf) == s && s in Stored(t) && NUL in t[leaf].children
    ensures NearestBranch(t, leaf, NUL).Err? ==> Stored(t) == {s}
  {
    NearestBranchWalk(t, leaf, NUL);
    if NearestBranch(t, leaf, NUL).Err? {
      SoleStored(t, s, leaf);
    }
  }

  /**
   * The climb of getNearestBranch from a terminator succeeds exactly when
   * some other string than the terminator's is stored.
   */
  lemma TerminatorWalk(t: seq<Node>, x: nat)
    requires Wf(t) && Complete(t) && 0 < x < |t| && t[x].key == NUL
    ensures NearestBranch(t, x, NUL).Ok? <==> Stored(t) != {Path(t, t[x].parent)}
  {
    var leaf := t[x].parent;
    var s := Path(t, leaf);
    PathStep(t, x);
    assert ParentLinked(t, x);
    TerminatorStored(t, x, s);
    TerminatorClimb(t, x);
    ClimbShared(t, leaf, s);
    ClimbSole(t, leaf, s);
  }

  /** The prefix paired with a non-empty stored string is the one getPrefix gives for it. */
  lemma EntryPrefix(t: seq<Node>, x: nat)
    requires Wf(t) && 0 < x < |t| && t[x].key == NUL
    ensures var e := EntryOf(t, x);
      e.Ok? && |e.value.0| > 1 ==> PrefixOf(t, e.value.0[..|e.value.0| - 1]) == Ok(e.value.1)
  {
    var e := EntryOf(t, x);
    if e.Ok? && |e.value.0| > 1 {
      var leaf := t[x].parent;
      var s := Path(t, leaf);
      PathStep(t, x);
      assert e.value.0[..|e.value.0| - 1] == s;
      assert leaf != 0;
      LeafOfFinds(t, 0, s, 0, leaf);
      TerminatorClimb(t, x);
    }
  }

  /** getAllStringsWithPrefixes faults exactly when the tree stores a single string. */
  lemma EntriesFault(t: seq<Node>)
    requires Wf(t) && Complete(t)
    ensures Entries(t, Leaves(t, 0)).Err? <==> |Stored(t)| == 1
  {
    var ls := Leaves(t, 0);
    EntriesErr(t, ls);
    SingletonSize(Stored(t));
    if Entries(t, ls).Err? {
      var i :| 0 <= i < |ls| && EntryOf(t, ls[i]).Err?;
      TerminatorWalk(t, ls[i]);
    }
    if |Stored(t)| == 1 {
      var s :| s in Stored(t) && Stored(t) == {s};
      var x := StoredTerminator(t, s);
      LeavesCover(t, 0, x);
      var i :| 0 <= i < |ls| && ls[i] == x;
      TerminatorWalk(t, x);
    }
  }

  /** The string in the pair of a terminator `x` is a stored string followed by NUL. */
  lemma EntryText(t: seq<Node>, x: nat)
    requires Wf(t) && 0 < x < |t| && t[x].key == NUL && EntryOf(t, x).Ok?
    ensures var e := EntryOf(t, x).value.0;
      |e| > 0 && e[|e| - 1] == NUL && e[..|e| - 1] in Stored(t)
  {
    PathStep(t, x);
    assert Path(t, t[x].parent) in Stored(t);
  }

  /** Each pair of getAllStringsWithPrefixes starts with a stored string followed by NUL. */
  lemma EntriesStored(t: seq<Node>)
    requires Wf(t) && Complete(t) && Entries(t, Leaves(t, 0)).Ok?
    ensures var es := Entries(t, Leaves(t, 0)).value;
      forall i :: 0 <= i < |es| ==>
        |es[i].0| > 0 && es[i].0[|es[i].0| - 1] == NUL && es[i].0[..|es[i].0| - 1] in Stored(t)
  {
    var ls := Leaves(t, 0);
    CollectLength(EntryResults(t, ls));
    var es := Entries(t, ls).value;
    forall i | 0 <= i < |es|
      ensures |es[i].0| > 0 && es[i].0[|es[i].0| - 1] == NUL && es[i].0[..|es[i].0| - 1] in Stored(t)
    {
      EntryAt(t, ls, i);
      EntryText(t, ls[i]);
    }
  }

  /** The position of the pair of a stored string `s`. */
  lemma EntryOfStored(t: seq<Node>, s: string) returns (i: nat)
    requires Wf(t) && Entries(t, Leaves(t, 0)).Ok? && s in Stored(t)
    ensures i < |Entries(t, Leaves(t, 0)).value| && Entries(t, Leaves(t, 0)).value[i].0 == s + [NUL]
  {
    var ls := Leaves(t, 0);
    var x := StoredTerminator(t, s);
    assert IsLeaf(t[x]) && Path(t, 0) < Path(t, x);
    LeavesCover(t, 0, x);
    i :| 0 <= i < |ls| && ls[i] == x;
    EntryAt(t, ls, i);
  }

  /** Every stored string has its pair in getAllStringsWithPrefixes. */
  lemma EntriesComplete(t: seq<Node>)
    requires Wf(t) && Complete(t) && Entries(t, Leaves(t, 0)).Ok?
    ensures var es := Entries(t, Leaves(t, 0)).value;
      forall s :: s in Stored(t) ==> exists i :: 0 <= i < |es| && es[i].0 == s + [NUL]
  {
    var es := Entries(t, Leaves(t, 0)).value;
    forall s | s in Stored(t) ensures exists i :: 0 <= i < |es| && es[i].0 == s + [NUL] {
      var i := EntryOfStored(t, s);
    }
  }

  /** The pairs of getAllStringsWithPrefixes ascend strictly by string, so none repeats. */
  lemma EntriesAscending(t: seq<Node>)
    requires Wf(t) && Entries(t, Leaves(t, 0)).Ok?
    ensures var es := Entries(t, Leaves(t, 0)).value;
      forall i, j :: 0 <= i < j < |es| ==> LexLess(es[i].0, es[j].0)
  {
    var ls := Leaves(t, 0);
    CollectLength(EntryResults(t, ls));
    LeavesAscending(t, 0);
    var es := Entries(t, ls).value;
    forall i, j | 0 <= i < j < |es| ensures LexLess(es[i].0, es[j].0) {
      EntryAt(t, ls, i);
      EntryAt(t, ls, j);
      assert es[i].0 == Path(t, ls[i]) && es[j].0 == Path(t, ls[j]);
    }
  }

  /** The second component of each pair is what getPrefix gives for the (non-empty) string. */
  lemma EntriesPrefixes(t: seq<Node>)
    requires Wf(t) && Complete(t) && Entries(t, Leaves(t, 0)).Ok?
    ensures var es := Entries(t, Leaves(t, 0)).value;
      forall i :: 0 <= i < |es| && |es[i].0| > 1 ==> PrefixOf(t, es[i].0[..|es[i].0| - 1]) == Ok(es[i].1)
  {
    var ls := Leaves(t, 0);
    CollectLength(EntryResults(t, ls));
    var es := Entries(t, ls).value;
    forall i | 0 <= i < |es| && |es[i].0| > 1
      ensures PrefixOf(t, es[i].0[..|es[i].0| - 1]) == Ok(es[i].1)
    {
      EntryAt(t, ls, i);
      EntryPrefix(t, ls[i]);
    }
  }
}
