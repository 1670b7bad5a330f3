/**
 * The key order of the map and the slice operations the map relies on.
 *
 * Keys are strings ordered by Go's built-in `<` on strings, the order the
 * `Less` helper gives for string keys: lexicographic, character by
 * character, with a proper prefix sorting first.  This module proves it is a
 * strict total order, and models the two library routines the map calls on
 * its key slice: `slices.SortFunc` (as an insertion sort, together with the
 * fact that every correct sort gives the same result on distinct keys) and
 * `slices.Index`.
 */
module Order {

  /**
   * Go's `a < b` on strings.  Go compares the strings' bytes; on valid UTF-8,
   * byte order and the order of the encoded characters agree, so comparing
   * characters gives the same answer for every key a Dafny string can hold.
   */
  predicate Less(a: string, b: string)
    decreases |a|
  {
    if |a| == 0 then |b| > 0
    else if |b| == 0 then false
    else if a[0] != b[0] then a[0] < b[0]
    else Less(a[1..], b[1..])
  }

  lemma {:induction false} LessIrreflexive(a: string)
    ensures !Less(a, a)
    decreases |a|
  {
    if |a| > 0 {
      LessIrreflexive(a[1..]);
    }
  }

  lemma {:induction false} LessAsymmetric(a: string, b: string)
    requires Less(a, b)
    ensures !Less(b, a)
    decreases |a|
  {
    if |a| > 0 && |b| > 0 && a[0] == b[0] {
      LessAsymmetric(a[1..], b[1..]);
    }
  }

  lemma {:induction false} LessTransitive(a: string, b: string, c: string)
    requires Less(a, b) && Less(b, c)
    ensures Less(a, c)
    decreases |a|
  {
    if |a| > 0 && a[0] == b[0] && b[0] == c[0] {
      LessTransitive(a[1..], b[1..], c[1..]);
    }
  }

  lemma {:induction false} LessTotal(a: string, b: string)
    requires a != b
    ensures Less(a, b) || Less(b, a)
    decreases |a|
  {
    if |a| > 0 && |b| > 0 && a[0] == b[0] {
      assert a == [a[0]] + a[1..] && b == [b[0]] + b[1..];
      LessTotal(a[1..], b[1..]);
    }
  }

  /** Each key sorts strictly before every later key. */
  ghost predicate StrictlySorted(s: seq<string>) {
    forall i, j :: 0 <= i < j < |s| ==> Less(s[i], s[j])
  }

  /** No key occurs twice. */
  ghost predicate Distinct(s: seq<string>) {
    forall i, j :: 0 <= i < j < |s| ==> s[i] != s[j]
  }

  lemma SortedIsDistinct(s: seq<string>)
    requires StrictlySorted(s)
    ensures Distinct(s)
  {
    forall i, j | 0 <= i < j < |s|
      ensures s[i] != s[j]
    {
      LessIrreflexive(s[i]);
    }
  }

  /** A strictly sorted slice with one key above all of its keys appended stays strictly sorted. */
  lemma SortedAppend(s: seq<string>, b: string)
    requires StrictlySorted(s)
    requires forall i :: 0 <= i < |s| ==> Less(s[i], b)
    ensures StrictlySorted(s + [b])
  {
  }

  /** Places `k` into a sorted slice by moving it left past every larger key. */
  function Insert(s: seq<string>, k: string): seq<string>
    decreases |s|
  {
    if |s| == 0 then [k]
    else if Less(s[|s| - 1], k) then s + [k]
    else Insert(s[..|s| - 1], k) + [s[|s| - 1]]
  }

  /** A key above the last key of a sorted slice is above all of them. */
  lemma AboveLast(s: seq<string>, k: string)
    requires StrictlySorted(s) && |s| > 0 && Less(s[|s| - 1], k)
    ensures StrictlySorted(s + [k])
  {
    forall i | 0 <= i < |s| - 1
      ensures Less(s[i], k)
    {
      LessTransitive(s[i], s[|s| - 1], k);
    }
    SortedAppend(s, k);
  }

  /** Every key of `t` that is `k` or a key of `front` sorts below `last`. */
  lemma BelowLast(front: seq<string>, t: seq<string>, k: string, last: string)
    requires StrictlySorted(front + [last]) && Less(k, last)
    requires multiset(t) == multiset(front) + multiset{k}
    ensures forall i :: 0 <= i < |t| ==> Less(t[i], last)
  {
    forall i | 0 <= i < |t|
      ensures Less(t[i], last)
    {
      assert t[i] in multiset(t);
      if t[i] != k {
        assert t[i] in front;
        var j :| 0 <= j < |front| && front[j] == t[i];
        assert (front + [last])[j] == t[i] && (front + [last])[|front|] == last;
      }
    }
  }

  lemma {:induction false} InsertSorted(s: seq<string>, k: string)
    requires StrictlySorted(s) && k !in s
    ensures StrictlySorted(Insert(s, k))
    ensures multiset(Insert(s, k)) == multiset(s) + multiset{k}
    decreases |s|
  {
    if |s| > 0 {
      var n := |s| - 1;
      var last := s[n];
      var front := s[..n];
      assert s == front + [last];
      if Less(last, k) {
        AboveLast(s, k);
      } else {
        InsertSorted(front, k);
        LessTotal(k, last);
        BelowLast(front, Insert(front, k), k, last);
        SortedAppend(Insert(front, k), last);
      }
    }
  }

  /**
   * The key slice after `slices.SortFunc(keys, less)`, computed by insertion
   * sort; SortedUnique shows that the algorithm does not matter.
   */
  function SortKeys(s: seq<string>): (r: seq<string>)
    requires Distinct(s)
    ensures StrictlySorted(r)
    ensures multiset(r) == multiset(s)
    decreases |s|
  {
    if |s| == 0 then []
    else
      var n := |s| - 1;
      var sorted := SortKeys(s[..n]);
      assert s == s[..n] + [s[n]];
      assert s[n] !in multiset(s[..n]);
      InsertSorted(sorted, s[n]);
      Insert(sorted, s[n])
  }

  /** Two strictly sorted slices holding the same keys are equal. */
  lemma {:induction false} SortedUnique(s: seq<string>, t: seq<string>)
    requires StrictlySorted(s) && StrictlySorted(t)
    requires forall x :: x in s <==> x in t
    ensures s == t
    decreases |s|
  {
    if |s| > 0 {
      assert s[0] in t;
    }
    if |t| > 0 {
      assert t[0] in s;
    }
    if |s| > 0 {
      assert s[0] == t[0] by {
        var i :| 0 <= i < |s| && s[i] == t[0];
        var j :| 0 <= j < |t| && t[j] == s[0];
        if 0 < i && 0 < j {
          LessAsymmetric(s[0], t[0]);
        }
      }
      LessIrreflexive(s[0]);
      forall x
        ensures x in s[1..] <==> x in t[1..]
      {
        if x in s[1..] {
          var i :| 1 <= i < |s| && s[i] == x;
          assert x != t[0] && x in s;
          assert x in t;
          var j :| 0 <= j < |t| && t[j] == x;
          assert t[1..][j - 1] == x;
        }
        if x in t[1..] {
          var j :| 1 <= j < |t| && t[j] == x;
          assert x != s[0] && x in t;
          assert x in s;
          var i :| 0 <= i < |s| && s[i] == x;
          assert s[1..][i - 1] == x;
        }
      }
      SortedUnique(s[1..], t[1..]);
      assert s == [s[0]] + s[1..] && t == [t[0]] + t[1..];
    }
  }

  /** The number of keys of a sorted slice that sort before `k`. */
  function Rank(s: seq<string>, k: string): (p: nat)
    ensures p <= |s|
    decreases |s|
  {
    if |s| == 0 || !Less(s[0], k) then 0 else 1 + Rank(s[1..], k)
  }

  lemma {:induction false} RankSplits(s: seq<string>, k: string)
    requires StrictlySorted(s) && k !in s
    ensures forall i :: 0 <= i < Rank(s, k) ==> Less(s[i], k)
    ensures forall i :: Rank(s, k) <= i < |s| ==> Less(k, s[i])
    decreases |s|
  {
    if |s| > 0 {
      if Less(s[0], k) {
        RankSplits(s[1..], k);
        forall i | 1 <= i < |s|
          ensures s[i] == s[1..][i - 1]
        {
        }
      } else {
        LessTotal(s[0], k);
        forall i | 0 < i < |s|
          ensures Less(k, s[i])
        {
          LessTransitive(k, s[0], s[i]);
        }
      }
    }
  }

  lemma SameMembers(a: seq<string>, b: seq<string>)
    requires multiset(a) == multiset(b)
    ensures forall x :: x in a <==> x in b
  {
    forall x
      ensures x in a <==> x in b
    {
      assert x in a <==> x in multiset(a);
      assert x in b <==> x in multiset(b);
    }
  }

  /** Putting `k` between the keys below it and the keys above it keeps the slice strictly sorted. */
  lemma InsertAtRankSorted(s: seq<string>, k: string)
    requires StrictlySorted(s) && k !in s
    ensures var p := Rank(s, k); StrictlySorted(s[..p] + [k] + s[p..])
  {
    var p := Rank(s, k);
    RankSplits(s, k);
    var u := s[..p] + [k] + s[p..];
    assert forall i :: 0 <= i < |u| ==> u[i] == if i < p then s[i] else if i == p then k else s[i - 1];
    forall i, j | 0 <= i < j < |u|
      ensures Less(u[i], u[j])
    {
      if i < p && p < j {
        LessTransitive(u[i], k, u[j]);
      }
    }
  }

  lemma DistinctAppend(s: seq<string>, k: string)
    requires Distinct(s) && k !in s
    ensures Distinct(s + [k])
  {
  }

  lemma SplitMultiset(s: seq<string>, k: string, p: nat)
    requires p <= |s|
    ensures multiset(s[..p] + [k] + s[p..]) == multiset(s + [k])
  {
    assert s == s[..p] + s[p..];
  }

  /**
   * Appending a new key and re-sorting places it right after the keys that
   * sort before it and leaves every other key in its relative order.
   */
  lemma AppendThenSort(s: seq<string>, k: string)
    requires StrictlySorted(s) && k !in s
    ensures Distinct(s + [k])
    ensures var p := Rank(s, k); SortKeys(s + [k]) == s[..p] + [k] + s[p..]
  {
    SortedIsDistinct(s);
    DistinctAppend(s, k);
    var p := Rank(s, k);
    InsertAtRankSorted(s, k);
    SplitMultiset(s, k, p);
    SameMembers(SortKeys(s + [k]), s[..p] + [k] + s[p..]);
    SortedUnique(SortKeys(s + [k]), s[..p] + [k] + s[p..]);
  }

  /** The position `slices.Index` reports: the first occurrence of `k`, or -1. */
  function IndexOf(s: seq<string>, k: string): (i: int)
    ensures -1 <= i < |s|
    ensures i == -1 <==> k !in s
    ensures 0 <= i ==> s[i] == k && k !in s[..i]
    decreases |s|
  {
    if |s| == 0 then -1
    else if s[0] == k then 0
    else
      var j := IndexOf(s[1..], k);
      assert s == [s[0]] + s[1..];
      if j == -1 then -1
      else
        assert s[..j + 1] == [s[0]] + s[1..][..j];
        j + 1
  }

  /**
   * Splicing out the position of `k` (`slices.Delete(keys, i, i+1)`) keeps a
   * strictly sorted slice strictly sorted and removes exactly `k`.
   */
  lemma RemoveAtSorted(s: seq<string>, i: nat)
    requires StrictlySorted(s) && i < |s|
    ensures StrictlySorted(s[..i] + s[i + 1..])
    ensures forall x :: x in s[..i] + s[i + 1..] <==> x in s && x != s[i]
    ensures |s[..i] + s[i + 1..]| == |s| - 1
  {
    var r := s[..i] + s[i + 1..];
    assert forall j :: 0 <= j < |r| ==> r[j] == if j < i then s[j] else s[j + 1];
    SortedIsDistinct(s);
    forall x
      ensures x in r <==> x in s && x != s[i]
    {
      if x in s && x != s[i] {
        var j :| 0 <= j < |s| && s[j] == x;
        assert r[if j < i then j else j - 1] == x;
      }
    }
  }

  /** A strictly sorted slice has as many keys as the set of its keys. */
  lemma {:induction false} SortedCardinality(s: seq<string>)
    requires StrictlySorted(s)
    ensures |set x | x in s| == |s|
    decreases |s|
  {
    if |s| > 0 {
      var n := |s| - 1;
      assert StrictlySorted(s[..n]);
      SortedCardinality(s[..n]);
      SortedIsDistinct(s);
      assert (set x | x in s) == (set x | x in s[..n]) + {s[n]};
      assert s[n] !in (set x | x in s[..n]);
    }
  }
}
