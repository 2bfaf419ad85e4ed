/** The ordering `print` applies before it emits the slots:
    `sort_by(|a, b| b.size.cmp(&a.size))`, a stable sort by descending size.
    A stable sort is determined by its result alone, so it is specified here
    by a functional insertion sort and proved sorted, stable and a
    permutation; `SortInPlace` sorts an array to exactly that result. */
module Sorting {
  import opened Sizes
  import opened Entries

  /** Places `e` after every entry of `t` at least as large as `e`, i.e. just
      before the first strictly smaller one counted from the back. */
  function Insert(t: seq<Entry>, e: Entry): (r: seq<Entry>)
    ensures |r| == |t| + 1
  {
    if t == [] || t[|t| - 1].size >= e.size then t + [e]
    else Insert(t[..|t| - 1], e) + [t[|t| - 1]]
  }

  lemma {:induction false} InsertPermutes(t: seq<Entry>, e: Entry)
    ensures multiset(Insert(t, e)) == multiset(t) + multiset{e}
  {
    if t != [] && t[|t| - 1].size < e.size {
      InsertPermutes(t[..|t| - 1], e);
      assert t == t[..|t| - 1] + [t[|t| - 1]];
    }
  }

  /** The slots in the order `sort_by` leaves them. */
  function SortBySizeDesc(s: seq<Entry>): (r: seq<Entry>)
    ensures |r| == |s|
  {
    if s == [] then []
    else Insert(SortBySizeDesc(s[..|s| - 1]), s[|s| - 1])
  }

  lemma {:induction false} InsertSorted(t: seq<Entry>, e: Entry)
    requires SortedDesc(t)
    ensures SortedDesc(Insert(t, e))
  {
    if t != [] && t[|t| - 1].size < e.size {
      var front, last := t[..|t| - 1], t[|t| - 1];
      InsertSorted(front, e);
      var r := Insert(front, e);
      InsertPermutes(front, e);
      forall x | x in r ensures x.size >= last.size {
        assert x in multiset(r);
        assert x in multiset(front) || x == e;
      }
      assert Insert(t, e) == r + [last];
      forall i, j | 0 <= i < j < |r| + 1 ensures (r + [last])[i].size >= (r + [last])[j].size {
        if j == |r| {
          assert (r + [last])[i] == r[i] && r[i] in r;
        }
      }
    }
  }

  lemma {:induction false} InsertKeepsTies(t: seq<Entry>, e: Entry, v: u64)
    ensures WithSize(Insert(t, e), v) == WithSize(t, v) + (if e.size == v then [e] else [])
  {
    if t == [] || t[|t| - 1].size >= e.size {
      assert (t + [e])[..|t|] == t;
    } else {
      var front, last := t[..|t| - 1], t[|t| - 1];
      InsertKeepsTies(front, e, v);
      var r := Insert(front, e);
      assert (r + [last])[..|r|] == r;
    }
  }

  /** The result of the sort is ordered by non-increasing size, is a
      permutation of the input, and lists the entries of each size in the
      order the input had them (stability). */
  lemma {:induction false} SortBySizeDescCorrect(s: seq<Entry>)
    ensures SortedDesc(SortBySizeDesc(s))
    ensures multiset(SortBySizeDesc(s)) == multiset(s)
    ensures forall v: u64 :: WithSize(SortBySizeDesc(s), v) == WithSize(s, v)
  {
    if s != [] {
      var front, last := s[..|s| - 1], s[|s| - 1];
      SortBySizeDescCorrect(front);
      InsertSorted(SortBySizeDesc(front), last);
      InsertPermutes(SortBySizeDesc(front), last);
      assert s == front + [last];
      forall v: u64 ensures WithSize(SortBySizeDesc(s), v) == WithSize(s, v) {
        InsertKeepsTies(SortBySizeDesc(front), last, v);
      }
    }
  }

  /** Any ordering that is sorted by descending size and keeps the order of
      every group of equal sizes is the one `SortBySizeDesc` produces: the
      stable sort is unique. */
  lemma {:induction false} StableSortUnique(s: seq<Entry>, r: seq<Entry>)
    requires SortedDesc(r)
    requires forall v: u64 :: WithSize(r, v) == WithSize(s, v)
    ensures r == SortBySizeDesc(s)
  {
    SortBySizeDescCorrect(s);
    SortedSameGroupsEqual(r, SortBySizeDesc(s));
  }

  lemma {:induction false} SortedSameGroupsEqual(a: seq<Entry>, b: seq<Entry>)
    requires SortedDesc(a) && SortedDesc(b)
    requires forall v: u64 :: WithSize(a, v) == WithSize(b, v)
    ensures a == b
    decreases |a|
  {
    if a == [] || b == [] {
      if a != [] || b != [] {
        var c := if a == [] then b else a;
        WithSizeMember(c, c[|c| - 1].size, c[|c| - 1]);
      }
    } else {
      LastsAgree(a, b);
      var x := a[|a| - 1];
      var a', b' := a[..|a| - 1], b[..|b| - 1];
      forall v: u64 ensures WithSize(a', v) == WithSize(b', v) {
        var tail := if x.size == v then [x] else [];
        assert WithSize(a, v) == WithSize(a', v) + tail;
        assert WithSize(b, v) == WithSize(b', v) + tail;
        assert WithSize(a', v) == (WithSize(a', v) + tail)[..|WithSize(a', v)|];
      }
      SortedSameGroupsEqual(a', b');
      assert a == a' + [x];
      assert b == b' + [x];
    }
  }

  /** Two sorted sequences with the same groups end with the same entry:
      both end with one of the smallest sizes, and the group of that size
      ends with that entry. */
  lemma LastsAgree(a: seq<Entry>, b: seq<Entry>)
    requires SortedDesc(a) && SortedDesc(b) && a != [] && b != []
    requires forall v: u64 :: WithSize(a, v) == WithSize(b, v)
    ensures a[|a| - 1] == b[|b| - 1]
  {
    LastSizesAgree(a, b);
    var x, y := a[|a| - 1], b[|b| - 1];
    GroupEndsWithLast(a);
    GroupEndsWithLast(b);
    assert WithSize(a, x.size) == WithSize(b, y.size);
  }

  lemma LastSizesAgree(a: seq<Entry>, b: seq<Entry>)
    requires SortedDesc(a) && SortedDesc(b) && a != [] && b != []
    requires forall v: u64 :: WithSize(a, v) == WithSize(b, v)
    ensures a[|a| - 1].size == b[|b| - 1].size
  {
    SameGroupsSameMembers(a, b, a[|a| - 1]);
    SameGroupsSameMembers(b, a, b[|b| - 1]);
    SmallestIsLast(b, a[|a| - 1]);
    SmallestIsLast(a, b[|b| - 1]);
  }

  lemma SameGroupsSameMembers(a: seq<Entry>, b: seq<Entry>, x: Entry)
    requires forall v: u64 :: WithSize(a, v) == WithSize(b, v)
    requires x in a
    ensures x in b
  {
    WithSizeMember(a, x.size, x);
    WithSizeMember(b, x.size, x);
  }

  lemma GroupEndsWithLast(s: seq<Entry>)
    requires s != []
    ensures var g := WithSize(s, s[|s| - 1].size); g != [] && g[|g| - 1] == s[|s| - 1]
  {
  }

  /** In a sorted sequence every entry is at least as large as the last. */
  lemma SmallestIsLast(s: seq<Entry>, x: Entry)
    requires SortedDesc(s) && x in s
    ensures x.size >= s[|s| - 1].size
  {
    var k :| 0 <= k < |s| && s[k] == x;
    assert k <= |s| - 1;
  }

  /** Sorts `a` in place, by insertion with adjacent swaps, to exactly the
      order `SortBySizeDesc` specifies. */
  method SortInPlace(a: array<Entry>)
    modifies a
    ensures a[..] == SortBySizeDesc(old(a[..]))
  {
    ghost var orig := a[..];
    var i := 0;
    while i < a.Length
      invariant 0 <= i <= a.Length
      invariant a[..i] == SortBySizeDesc(orig[..i])
      invariant a[i..] == orig[i..]
    {
      ghost var before := a[..];
      SinkLast(a, i);
      SortedPrefixGrows(orig, i, before, a[..]);
      i := i + 1;
    }
    assert a[..] == a[..a.Length];
    assert orig == orig[..a.Length];
  }

  /** After one insertion step the sorted prefix covers one more input entry. */
  lemma SortedPrefixGrows(orig: seq<Entry>, i: nat, before: seq<Entry>, after: seq<Entry>)
    requires i < |orig| == |before| == |after|
    requires before[..i] == SortBySizeDesc(orig[..i]) && before[i..] == orig[i..]
    requires after[..i + 1] == Insert(before[..i], before[i])
    requires after[i + 1..] == before[i + 1..]
    ensures after[..i + 1] == SortBySizeDesc(orig[..i + 1])
    ensures after[i + 1..] == orig[i + 1..]
  {
    assert before[i] == orig[i] by {
      assert before[i..][0] == orig[i..][0];
    }
    assert orig[..i + 1][..i] == orig[..i];
    assert before[i + 1..] == before[i..][1..];
  }

  /** One insertion step: moves `a[i]` left past every strictly smaller
      entry, leaving `a[..i + 1]` as `Insert(a[..i], a[i])`. */
  method SinkLast(a: array<Entry>, i: nat)
    requires i < a.Length
    modifies a
    ensures a[..i + 1] == Insert(old(a[..i]), old(a[i]))
    ensures a[i + 1..] == old(a[i + 1..])
  {
    ghost var sorted, e := a[..i], a[i];
    var j := i;
    while j > 0 && a[j - 1].size < a[j].size
      invariant 0 <= j <= i
      invariant a[j] == e
      invariant a[i + 1..] == old(a[i + 1..])
      invariant Insert(sorted, e) == Insert(a[..j], e) + a[j + 1..i + 1]
    {
      ghost var before := a[..];
      a[j - 1], a[j] := a[j], a[j - 1];
      SwapKeepsInsert(sorted, e, i, j, before, a[..]);
      j := j - 1;
    }
    InsertStops(a[..], e, i, j);
  }

  /** Swapping `e` with the strictly smaller entry before it keeps the
      pending insertion the same. */
  lemma SwapKeepsInsert(sorted: seq<Entry>, e: Entry, i: nat, j: nat, before: seq<Entry>, after: seq<Entry>)
    requires 0 < j <= i < |before| == |after|
    requires before[j] == e && before[j - 1].size < e.size
    requires Insert(sorted, e) == Insert(before[..j], e) + before[j + 1..i + 1]
    requires after == before[j - 1 := e][j := before[j - 1]]
    ensures after[j - 1] == e
    ensures after[i + 1..] == before[i + 1..]
    ensures Insert(sorted, e) == Insert(after[..j - 1], e) + after[j..i + 1]
  {
    assert before[..j][..j - 1] == before[..j - 1] == after[..j - 1];
    assert before[..j][j - 1] == before[j - 1];
    assert Insert(before[..j], e) == Insert(before[..j - 1], e) + [before[j - 1]];
    assert after[j..i + 1] == [before[j - 1]] + before[j + 1..i + 1];
  }

  /** Once the entry before `e` is at least as large, the insertion is done. */
  lemma InsertStops(s: seq<Entry>, e: Entry, i: nat, j: nat)
    requires j <= i < |s| && s[j] == e
    requires j == 0 || s[j - 1].size >= e.size
    ensures Insert(s[..j], e) + s[j + 1..i + 1] == s[..i + 1]
  {
    if j > 0 {
      assert s[..j][j - 1] == s[j - 1];
    } else {
      assert s[..j] == [];
    }
    assert Insert(s[..j], e) == s[..j] + [e];
    assert s[..i + 1] == s[..j] + [s[j]] + s[j + 1..i + 1];
  }
}
