/**
 * Sequence helpers used by the prefix tree: reversal (std::reverse on a
 * string), the longest common prefix of two strings, the lexicographic
 * order, and the ascending order in which std::map visits its keys.
 */
module Strings {

  /** The characters of `s` in reverse order. */
  function Reverse(s: string): (r: string)
    ensures |r| == |s|
    ensures forall i :: 0 <= i < |s| ==> r[i] == s[|s| - 1 - i]
  {
    if s == [] then [] else Reverse(s[1..]) + [s[0]]
  }

  /** Reversing `s + [c]` puts `c` in front of the reversal of `s`. */
  lemma ReverseSnoc(s: string, c: char)
    ensures Reverse(s + [c]) == [c] + Reverse(s)
  {
    var l, r := Reverse(s + [c]), [c] + Reverse(s);
    assert |l| == |r|;
    forall i | 0 <= i < |l| ensures l[i] == r[i] {
      if i > 0 {
        assert l[i] == (s + [c])[|s| - i];
      }
    }
  }

  /** The longest common prefix of `a` and `b`. */
  function CommonPrefix(a: string, b: string): (r: string)
    ensures r <= a && r <= b
    ensures |r| < |a| && |r| < |b| ==> a[|r|] != b[|r|]
  {
    if a == [] || b == [] || a[0] != b[0] then []
    else [a[0]] + CommonPrefix(a[1..], b[1..])
  }

  /** Every common prefix of `a` and `b` is a prefix of their longest one. */
  lemma {:induction false} CommonPrefixLongest(a: string, b: string, q: string)
    ensures q <= a && q <= b ==> q <= CommonPrefix(a, b)
  {
    if q != [] && q <= a && q <= b {
      assert a[0] == q[0] == b[0];
      CommonPrefixLongest(a[1..], b[1..], q[1..]);
      assert CommonPrefix(a, b) == [a[0]] + CommonPrefix(a[1..], b[1..]);
    }
  }

  /** A proper prefix extended by the next character of `a` is still a prefix of `a`. */
  lemma ExtendPrefix(a: string, q: string)
    requires q <= a && |q| < |a|
    ensures q + [a[|q|]] <= a
  {
    assert a[..|q| + 1] == a[..|q|] + [a[|q|]];
  }

  /** A prefix followed by `k` inside `a` is a proper prefix of `a`, and `k` comes next in `a`. */
  lemma KeyAfterPrefix(p: string, k: char, a: string)
    requires p + [k] <= a
    ensures p < a && a[|p|] == k
  {
    assert a[|p|] == (p + [k])[|p|];
  }

  /** `p` followed by the first element of `w` is a prefix of `p + w`. */
  lemma HeadAfterPrefix(p: string, w: string)
    requires w != []
    ensures p + [w[0]] <= p + w
  {
    assert (p + w)[..|p| + 1] == p + [w[0]];
  }

  /** `a` comes strictly before `b`: they agree up to some position where `a` has the smaller character. */
  ghost predicate LexLess(a: string, b: string)
  {
    exists d :: 0 <= d < |a| && d < |b| && a[..d] == b[..d] && a[d] < b[d]
  }

  /** Two extensions of `p` are ordered by the characters that follow `p`. */
  lemma ForkOrder(p: string, a: string, b: string)
    requires p < a && p < b && a[|p|] < b[|p|]
    ensures LexLess(a, b)
  {
    assert a[..|p|] == p == b[..|p|];
  }

  /**
   * An extension of `p + [ks[0]]` comes before an extension of `p` that
   * continues with a later key of the ascending `ks`.
   */
  lemma ForkByKeys(p: string, a: string, b: string, ks: seq<char>)
    requires ks != [] && Ascending(ks) && p + [ks[0]] <= a && p < b && b[|p|] in ks[1..]
    ensures LexLess(a, b)
  {
    var m :| 0 <= m < |ks[1..]| && ks[1..][m] == b[|p|];
    assert ks[0] < ks[m + 1];
    assert a[|p|] == (p + [ks[0]])[|p|];
    ForkOrder(p, a, b);
  }

  /** The characters of `s` are strictly ascending. */
  ghost predicate Ascending(s: seq<char>)
  {
    forall i, j :: 0 <= i < j < |s| ==> s[i] < s[j]
  }

  lemma {:induction false} HasMinimum(ks: set<char>)
    requires ks != {}
    ensures exists m :: m in ks && forall k :: k in ks ==> m <= k
  {
    var x :| x in ks;
    if ks != {x} {
      HasMinimum(ks - {x});
      var m :| m in ks - {x} && forall k :: k in ks - {x} ==> m <= k;
      var lo := if x < m then x else m;
      forall k | k in ks ensures lo <= k {
        if k != x {
          assert k in ks - {x};
        }
      }
    } else {
      assert forall k :: k in ks ==> x <= k;
    }
  }

  /** The smallest key of a non-empty key set (the key std::map::begin() points at). */
  function MinKey(ks: set<char>): (m: char)
    requires ks != {}
    ensures m in ks && forall k :: k in ks ==> m <= k
  {
    HasMinimum(ks);
    var m :| m in ks && forall k :: k in ks ==> m <= k; m
  }

  /** The keys in ascending order, as a range-for over std::map visits them. */
  function SortedKeys(ks: set<char>): (r: seq<char>)
    ensures Ascending(r)
    ensures forall k :: k in ks <==> k in r
    decreases |ks|
  {
    if ks == {} then []
    else
      var m := MinKey(ks);
      [m] + SortedKeys(ks - {m})
  }

  // Small steps on sequences, kept apart so that callers with large contexts need not rediscover them.

  lemma Regroup<T>(a: seq<T>, b: seq<T>, c: seq<T>)
    ensures (a + b) + c == a + (b + c)
  {
  }

  /** Appending the used-up rest of `s` adds nothing. */
  lemma DropAll<T>(p: seq<T>, s: seq<T>, i: nat)
    requires i == |s|
    ensures p + s[i..] == p
  {
  }

  /** Appending the rest of `s` from `i` is appending `s[i]` and then the rest from `i + 1`. */
  lemma DropOne<T>(p: seq<T>, s: seq<T>, i: nat)
    requires i < |s|
    ensures p + s[i..] == (p + [s[i]]) + s[i + 1..]
  {
    assert s[i..] == [s[i]] + s[i + 1..];
  }

  lemma InTail<T>(x: T, s: seq<T>)
    requires s != [] && x in s[1..]
    ensures x in s
  {
  }

  lemma AbsentFromRest<T>(x: T, s: seq<T>, i: nat)
    requires i < |s| && x !in s[i..]
    ensures x != s[i] && x !in s[i + 1..]
  {
    assert s[i..][0] == s[i];
    assert s[i + 1..] == s[i..][1..];
  }
}
