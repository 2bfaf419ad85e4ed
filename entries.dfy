/** `Entry`: one tracked item, a path and its size in bytes. */
module Entries {
  import opened Sizes

  datatype Entry = Entry(itemName: string, size: u64)

  /** The value every slot of a fresh tracker starts with. */
  const Placeholder: Entry := Entry("", 0)

  /** `s` lists sizes in non-increasing order. */
  ghost predicate SortedDesc(s: seq<Entry>) {
    forall i, j :: 0 <= i < j < |s| ==> s[i].size >= s[j].size
  }

  /** The entries of `s` whose size is `v`, in their order in `s`. */
  function WithSize(s: seq<Entry>, v: u64): (r: seq<Entry>)
    ensures |r| <= |s|
  {
    if s == [] then []
    else WithSize(s[..|s| - 1], v) + (if s[|s| - 1].size == v then [s[|s| - 1]] else [])
  }

  lemma {:induction false} WithSizeMember(s: seq<Entry>, v: u64, x: Entry)
    ensures x in WithSize(s, v) <==> x in s && x.size == v
  {
    if s != [] {
      WithSizeMember(s[..|s| - 1], v, x);
      assert s == s[..|s| - 1] + [s[|s| - 1]];
    }
  }
}
