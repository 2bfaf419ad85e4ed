/** `Tracker`: a fixed number of slots holding the largest entries reported
    so far, with the smallest kept size (`min`) and the slot that holds it
    (`min_pos`) cached so that most reports are rejected by one comparison.

    The behaviour is first given on values (`Snapshot`, `Step`, `ReportAll`)
    and proved to keep the K largest entries; the class `Tracker` then
    implements it in place over an array and is proved to follow `Step`. */
module Tracking {
  import opened Sizes
  import opened Entries
  import opened Sorting

  /** Slot `p` holds a smallest size and every later slot a strictly larger
      one: the slot a forward rescan that updates on `<=` ends on. */
  ghost predicate IsLastMin(s: seq<Entry>, p: nat) {
    && p < |s|
    && (forall i :: 0 <= i < |s| ==> s[p].size <= s[i].size)
    && (forall i :: p < i < |s| ==> s[p].size < s[i].size)
  }

  /** At most one slot is the last minimum. */
  lemma LastMinUnique(s: seq<Entry>, p: nat, q: nat)
    requires IsLastMin(s, p) && IsLastMin(s, q)
    ensures p == q
  {
    assert s[p].size == s[q].size;
  }

  /** The index of the last slot holding the smallest size. */
  function LastMinIndex(s: seq<Entry>): (p: nat)
    requires s != []
    ensures IsLastMin(s, p)
  {
    if |s| == 1 then 0
    else
      var q := LastMinIndex(s[..|s| - 1]);
      if s[|s| - 1].size <= s[q].size then |s| - 1 else q
  }

  /** The tracker's fields as values: `list`, `min` and `min_pos`. */
  datatype Snapshot = Snapshot(slots: seq<Entry>, min: u64, minPos: nat)

  /** The cache is consistent: `min` is the smallest size held and `minPos`
      a slot holding it (both 0 when there are no slots). */
  ghost predicate Cached(st: Snapshot) {
    if st.slots == [] then st.min == 0 && st.minPos == 0
    else
      && st.minPos < |st.slots|
      && st.slots[st.minPos].size == st.min
      && forall i :: 0 <= i < |st.slots| ==> st.min <= st.slots[i].size
  }

  /** `K` placeholder slots. */
  function Placeholders(k: nat): (s: seq<Entry>)
    ensures |s| == k && forall i :: 0 <= i < k ==> s[i] == Placeholder
  {
    seq(k, _ => Placeholder)
  }

  /** `Tracker::new(k)`. */
  function Initial(k: nat): (st: Snapshot)
    ensures Cached(st) && st.slots == Placeholders(k) && st.min == 0 && st.minPos == 0
  {
    Snapshot(Placeholders(k), 0, 0)
  }

  /** `report(e.itemName, e.size)` on values: reject anything smaller than
      the cached minimum; otherwise overwrite the minimum's slot and rescan. */
  function Step(st: Snapshot, e: Entry): (r: Snapshot)
    requires Cached(st) && st.slots != []
    ensures Cached(r) && |r.slots| == |st.slots|
    ensures e.size >= st.min ==> IsLastMin(r.slots, r.minPos)
  {
    if e.size < st.min then st
    else
      var s := st.slots[st.minPos := e];
      var p := LastMinIndex(s);
      Snapshot(s, s[p].size, p)
  }

  /** A sequence of reports, applied in order (none can be made to a
      tracker without slots). */
  function ReportAll(st: Snapshot, es: seq<Entry>): (r: Snapshot)
    requires Cached(st) && (st.slots != [] || es == [])
    ensures Cached(r) && |r.slots| == |st.slots|
  {
    if es == [] then st
    else Step(ReportAll(st, es[..|es| - 1]), es[|es| - 1])
  }

  lemma ReportAllOne(st: Snapshot, e: Entry)
    requires Cached(st) && st.slots != []
    ensures ReportAll(st, [e]) == Step(st, e)
  {
    assert [e][..0] == [];
  }

  lemma {:induction false} ReportAllAppend(st: Snapshot, a: seq<Entry>, b: seq<Entry>)
    requires Cached(st) && (st.slots != [] || a + b == [])
    ensures ReportAll(st, a + b) == ReportAll(ReportAll(st, a), b)
    decreases |b|
  {
    if b != [] {
      ReportAllAppend(st, a, b[..|b| - 1]);
      assert (a + b)[..|a + b| - 1] == a + b[..|b| - 1];
    } else {
      assert a + b == a;
    }
  }

  /** `kept` is a choice of `k` largest entries out of `seen`: part of it,
      of size `k`, and no entry left out is larger than any entry kept. */
  ghost predicate IsTopK(kept: multiset<Entry>, seen: multiset<Entry>, k: nat) {
    && kept <= seen
    && |kept| == k
    && forall a, b :: a in kept && b in seen - kept ==> b.size <= a.size
  }

  lemma MultisetSplitLast(s: seq<Entry>)
    requires s != []
    ensures multiset(s) == multiset(s[..|s| - 1]) + multiset{s[|s| - 1]}
  {
    assert s == s[..|s| - 1] + [s[|s| - 1]];
  }

  /** A rejected entry is no larger than anything kept, so the kept entries
      stay a choice of the largest. */
  lemma RejectKeepsTopK(kept: multiset<Entry>, seen: multiset<Entry>, k: nat, m: Entry, e: Entry)
    requires IsTopK(kept, seen, k)
    requires m in kept && forall a :: a in kept ==> m.size <= a.size
    requires e.size < m.size
    ensures IsTopK(kept, seen + multiset{e}, k)
  {
    forall a, b | a in kept && b in seen + multiset{e} - kept ensures b.size <= a.size {
      if b != e {
        assert b in seen - kept;
      }
    }
  }

  /** An accepted entry evicts a smallest kept entry `m`; since `e` is at
      least as large as `m`, and `m` at least as large as anything already
      left out, the kept entries stay a choice of the largest. */
  lemma AcceptKeepsTopK(kept: multiset<Entry>, seen: multiset<Entry>, k: nat, m: Entry, e: Entry)
    requires IsTopK(kept, seen, k)
    requires m in kept && forall a :: a in kept ==> m.size <= a.size
    requires e.size >= m.size
    ensures IsTopK(kept - multiset{m} + multiset{e}, seen + multiset{e}, k)
  {
    var kept', seen' := kept - multiset{m} + multiset{e}, seen + multiset{e};
    assert |kept - multiset{m}| == |kept| - 1;
    forall a, b | a in kept' && b in seen' - kept' ensures b.size <= a.size {
      assert seen'[b] > kept'[b];
      assert b.size <= m.size by {
        if b != m {
          assert b in seen - kept;
        }
      }
      if a != e {
        assert a in kept;
      }
    }
  }

  /** One report keeps the slots a choice of the K largest entries seen. */
  lemma StepKeepsTopK(st: Snapshot, e: Entry, seen: multiset<Entry>)
    requires Cached(st) && st.slots != []
    requires IsTopK(multiset(st.slots), seen, |st.slots|)
    ensures IsTopK(multiset(Step(st, e).slots), seen + multiset{e}, |st.slots|)
  {
    var kept, m := multiset(st.slots), st.slots[st.minPos];
    forall a | a in kept ensures m.size <= a.size {
      var i :| 0 <= i < |st.slots| && st.slots[i] == a;
    }
    if e.size < st.min {
      RejectKeepsTopK(kept, seen, |st.slots|, m, e);
    } else {
      assert multiset(st.slots[st.minPos := e]) == kept - multiset{m} + multiset{e};
      AcceptKeepsTopK(kept, seen, |st.slots|, m, e);
    }
  }

  /** Any sequence of reports keeps the slots a choice of the K largest. */
  lemma {:induction false} ReportAllKeepsTopK(st: Snapshot, es: seq<Entry>, seen: multiset<Entry>)
    requires Cached(st) && st.slots != []
    requires IsTopK(multiset(st.slots), seen, |st.slots|)
    ensures IsTopK(multiset(ReportAll(st, es).slots), seen + multiset(es), |st.slots|)
  {
    if es != [] {
      var front, last := es[..|es| - 1], es[|es| - 1];
      ReportAllKeepsTopK(st, front, seen);
      var before := ReportAll(st, front);
      StepKeepsTopK(before, last, seen + multiset(front));
      MultisetSplitLast(es);
    }
  }

  /** After any sequence of reports into a fresh tracker of `k >= 1` slots,
      the slots hold a choice of the `k` largest entries among the `k`
      placeholders and everything reported. */
  lemma ReportsKeepTopK(k: nat, es: seq<Entry>)
    requires k >= 1
    ensures IsTopK(multiset(ReportAll(Initial(k), es).slots), multiset(Placeholders(k)) + multiset(es), k)
  {
    var p := multiset(Placeholders(k));
    assert |p| == k;
    assert p - p == multiset{};
    ReportAllKeepsTopK(Initial(k), es, p);
  }

  /** One printed line: the entry's name and its size in whole megabytes. */
  datatype Row = Row(itemName: string, mb: u64)

  /** The lines `print` emits for slots already in print order. */
  function RowsOf(s: seq<Entry>): (rows: seq<Row>)
    ensures |rows| == |s|
    ensures forall i :: 0 <= i < |s| ==> rows[i].itemName == s[i].itemName && rows[i].mb == ToMb(s[i].size)
  {
    seq(|s|, i requires 0 <= i < |s| => Row(s[i].itemName, ToMb(s[i].size)))
  }

  /** What `print` shows for a tracker holding `slots`: one line per slot,
      largest first, in megabytes, ties in slot order. */
  lemma PrintedRows(slots: seq<Entry>)
    ensures var sorted := SortBySizeDesc(slots);
      && multiset(sorted) == multiset(slots)
      && (forall v: u64 :: WithSize(sorted, v) == WithSize(slots, v))
      && |RowsOf(sorted)| == |slots|
      && forall i, j :: 0 <= i < j < |slots| ==> RowsOf(sorted)[i].mb >= RowsOf(sorted)[j].mb
  {
    var sorted := SortBySizeDesc(slots);
    SortBySizeDescCorrect(slots);
    forall i, j | 0 <= i < j < |slots| ensures RowsOf(sorted)[i].mb >= RowsOf(sorted)[j].mb {
      ToMbMonotonic(sorted[j].size, sorted[i].size);
    }
  }

  class Tracker {
    var list: array<Entry>
    var min: u64
    var minPos: nat

    /** The fields as a value. */
    function State(): (st: Snapshot)
      reads this, list
    {
      Snapshot(list[..], min, minPos)
    }

    ghost predicate Valid()
      reads this, list
    {
      Cached(State())
    }

    /** `Tracker::new(max_items)`: `max_items` placeholder slots. */
    constructor (maxItems: u8)
      ensures Valid() && fresh(list)
      ensures State() == Initial(maxItems)
    {
      list := new Entry[maxItems](_ => Placeholder);
      min, minPos := 0, 0;
    }

    /** `report(file_name, size)`. A tracker with no slot panics on the
        first report (it indexes slot 0), hence `list.Length >= 1`. */
    method Report(fileName: string, size: u64)
      requires Valid() && list.Length >= 1
      modifies this, list
      ensures Valid() && list == old(list)
      ensures State() == Step(old(State()), Entry(fileName, size))
      ensures size < old(min) ==> list[..] == old(list[..]) && min == old(min) && minPos == old(minPos)
      ensures size >= old(min) ==> list[..] == old(list[..])[old(minPos) := Entry(fileName, size)]
      ensures size >= old(min) ==> IsLastMin(list[..], minPos) && min == list[minPos].size
    {
      if size < min {
        return;
      }
      list[minPos] := Entry(fileName, size);
      var newMin: u64 := size;
      var newPos: nat := minPos;
      for i := 0 to list.Length
        invariant newPos < list.Length && list[newPos].size == newMin
        invariant forall j :: 0 <= j < i ==> newMin <= list[j].size
        invariant forall j :: newPos < j < i ==> newMin < list[j].size
      {
        if list[i].size <= newMin {
          newMin := list[i].size;
          newPos := i;
        }
      }
      min, minPos := newMin, newPos;
      LastMinUnique(list[..], minPos, LastMinIndex(list[..]));
    }

    /** `print`: sorts the slots in place by descending size (stably) and
        yields one row per slot in that order. */
    method Print() returns (rows: seq<Row>)
      modifies list
      ensures list[..] == SortBySizeDesc(old(list[..]))
      ensures rows == RowsOf(list[..])
    {
      SortInPlace(list);
      rows := [];
      for i := 0 to list.Length
        invariant rows == RowsOf(list[..i])
      {
        rows := rows + [Row(list[i].itemName, ToMb(list[i].size))];
      }
      assert list[..] == list[..list.Length];
    }
  }
}
