/** `list`: the depth-first walk that feeds the tracker. The file system is
    given as a finite tree of `Node`s instead of being read. In file mode
    every file is reported with its length; in folder mode every readable
    directory is reported, after everything below it, with the total length
    of the files directly in it. */
module Walker {
  import opened Sizes
  import opened Entries
  import opened Tracking

  /** The path separator placed between a directory's path and a child's
      name. */
  const SEP: char := '/'

  /** A directory entry as the walk sees it. */
  datatype Node =
    | File(name: string, len: u64)           // metadata says: not a directory
    | Dir(name: string, entries: seq<Node>)  // a directory whose listing can be read
    | UnreadableDir(name: string)            // a directory whose listing fails
    | NoMetadata(name: string)               // reading the entry's metadata fails

  /** The metadata says "directory", so the walk recurses into it. */
  predicate IsDirectory(n: Node) {
    n.Dir? || n.UnreadableDir?
  }

  /** The path of child `name` of the directory at `parent`. */
  function ChildPath(parent: string, name: string): (r: string)
    ensures |r| == |parent| + 1 + |name|
    ensures r[..|parent|] == parent && r[|parent|] == SEP && r[|parent| + 1..] == name
  {
    parent + [SEP] + name
  }

  /** `folder_size` after the entries `es`: the lengths of the files among
      them, added with `u64` wrap-around. Subdirectories and entries whose
      metadata failed add nothing. The result is the exact sum modulo 2^64,
      so it is exact whenever that sum fits in a `u64`. */
  function DirectTotal(es: seq<Node>): (r: u64)
    ensures r == DirectSum(es) % U64_MODULUS
    ensures DirectSum(es) < U64_MODULUS ==> r == DirectSum(es)
  {
    if es == [] then 0
    else
      var front, last := es[..|es| - 1], es[|es| - 1];
      ModAddLeft(DirectSum(front), FileLen(last));
      WrappingAdd(DirectTotal(front), FileLen(last))
  }

  /** Reducing the left operand first does not change a sum modulo 2^64. */
  lemma ModAddLeft(s: nat, x: nat)
    ensures (s % U64_MODULUS + x) % U64_MODULUS == (s + x) % U64_MODULUS
  {
    var q := s / U64_MODULUS;
    assert s == q * U64_MODULUS + s % U64_MODULUS;
    assert s + x == (s % U64_MODULUS + x) + q * U64_MODULUS;
  }

  /** What one entry adds to `folder_size`: a file's length, nothing else. */
  function FileLen(n: Node): (r: u64) {
    if n.File? then n.len else 0
  }

  /** The exact total of the lengths of the files directly in `es`. */
  function DirectSum(es: seq<Node>): (r: nat) {
    if es == [] then 0 else DirectSum(es[..|es| - 1]) + FileLen(es[|es| - 1])
  }

  /** The reports, in order, of `list(path)` when the directory at `path`
      is `dir`. Anything but a readable directory fails to list and reports
      nothing. */
  function WalkReports(path: string, dir: Node, onlyFolders: bool): (r: seq<Entry>)
    ensures |r| == TrackedCount(dir, onlyFolders)
    decreases dir, 1
  {
    if !dir.Dir? then []
    else
      ChildrenReports(path, dir.entries, onlyFolders)
      + if onlyFolders then [Entry(path, DirectTotal(dir.entries))] else []
  }

  /** The reports made while looping over the entries `es` of `path`. */
  function ChildrenReports(path: string, es: seq<Node>, onlyFolders: bool): (r: seq<Entry>)
    ensures |r| == EntriesTrackedCount(es, onlyFolders)
    decreases es, 0
  {
    if es == [] then []
    else ChildrenReports(path, es[..|es| - 1], onlyFolders) + ChildReports(path, es[|es| - 1], onlyFolders)
  }

  /** The reports made for one entry `c` of `path`. */
  function ChildReports(path: string, c: Node, onlyFolders: bool): (r: seq<Entry>)
    ensures |r| == ChildTrackedCount(c, onlyFolders)
    decreases c, 2
  {
    match c
    case File(name, len) => if onlyFolders then [] else [Entry(ChildPath(path, name), len)]
    case Dir(name, _) => WalkReports(ChildPath(path, name), c, onlyFolders)
    case UnreadableDir(name) => WalkReports(ChildPath(path, name), c, onlyFolders)
    case NoMetadata(_) => []
  }

  /** `list(path, only_folders, tracker)`: applies to the tracker exactly
      the reports `WalkReports` lists, in that order. A tracker without
      slots panics on its first report, so it must have a slot unless the
      walk reports nothing. */
  method Walk(path: string, dir: Node, onlyFolders: bool, tracker: Tracker)
    requires tracker.Valid()
    requires tracker.list.Length >= 1 || WalkReports(path, dir, onlyFolders) == []
    modifies tracker, tracker.list
    ensures tracker.Valid() && tracker.list == old(tracker.list)
    ensures tracker.State() == ReportAll(old(tracker.State()), WalkReports(path, dir, onlyFolders))
    decreases dir, 0
  {
    if !dir.Dir? {
      // the listing fails: the source prints the error and returns
      return;
    }
    var entries := dir.entries;
    ghost var start := tracker.State();
    var folderSize: u64 := 0;
    for i := 0 to |entries|
      invariant tracker.Valid() && tracker.list == old(tracker.list)
      invariant folderSize == DirectTotal(entries[..i])
      invariant tracker.list.Length >= 1 || ChildrenReports(path, entries[..i], onlyFolders) == []
      invariant tracker.State() == ReportAll(start, ChildrenReports(path, entries[..i], onlyFolders))
    {
      ghost var done := ChildrenReports(path, entries[..i], onlyFolders);
      ChildrenStep(path, entries, i, onlyFolders);
      if tracker.list.Length == 0 {
        EntryReportsEmpty(path, dir, i, onlyFolders);
      }
      var added := VisitEntry(path, entries[i], onlyFolders, tracker);
      folderSize := WrappingAdd(folderSize, added);
      ReportAllAppend(start, done, ChildReports(path, entries[i], onlyFolders));
    }
    assert entries[..|entries|] == entries;
    ghost var children := ChildrenReports(path, entries, onlyFolders);
    if onlyFolders {
      ghost var mid := tracker.State();
      tracker.Report(path, folderSize);
      ReportAllOne(mid, Entry(path, folderSize));
      ReportAllAppend(start, children, [Entry(path, folderSize)]);
    } else {
      assert WalkReports(path, dir, onlyFolders) == children + [];
      assert children + [] == children;
    }
  }

  /** The body of `list`'s loop for one entry `child` of `path`: recurse
      into a directory, report a file (in file mode), skip an entry whose
      metadata failed. Yields what the entry adds to `folder_size`. */
  method VisitEntry(path: string, child: Node, onlyFolders: bool, tracker: Tracker) returns (added: u64)
    requires tracker.Valid()
    requires tracker.list.Length >= 1 || ChildReports(path, child, onlyFolders) == []
    modifies tracker, tracker.list
    ensures tracker.Valid() && tracker.list == old(tracker.list)
    ensures tracker.State() == ReportAll(old(tracker.State()), ChildReports(path, child, onlyFolders))
    ensures added == FileLen(child)
    decreases child, 1
  {
    added := 0;
    match child {
      case File(name, len) =>
        if !onlyFolders {
          ghost var before := tracker.State();
          tracker.Report(ChildPath(path, name), len);
          ReportAllOne(before, Entry(ChildPath(path, name), len));
        }
        added := len;
      case Dir(name, _) =>
        Walk(ChildPath(path, name), child, onlyFolders, tracker);
      case UnreadableDir(name) =>
        Walk(ChildPath(path, name), child, onlyFolders, tracker);
      case NoMetadata(_) =>
    }
  }

  lemma ChildrenStep(path: string, es: seq<Node>, i: nat, onlyFolders: bool)
    requires i < |es|
    ensures ChildrenReports(path, es[..i + 1], onlyFolders)
         == ChildrenReports(path, es[..i], onlyFolders) + ChildReports(path, es[i], onlyFolders)
    ensures DirectTotal(es[..i + 1]) == WrappingAdd(DirectTotal(es[..i]), FileLen(es[i]))
  {
    assert es[..i + 1][..i] == es[..i];
  }

  /** When a directory's walk reports nothing, neither does any of its
      entries. */
  lemma EntryReportsEmpty(path: string, dir: Node, i: nat, onlyFolders: bool)
    requires dir.Dir? && i < |dir.entries|
    requires WalkReports(path, dir, onlyFolders) == []
    ensures ChildrenReports(path, dir.entries[..i + 1], onlyFolders) == []
    ensures ChildReports(path, dir.entries[i], onlyFolders) == []
  {
    ChildrenPrefix(path, dir.entries, i + 1, onlyFolders);
    ChildrenStep(path, dir.entries, i, onlyFolders);
  }

  lemma {:induction false} ChildrenPrefix(path: string, es: seq<Node>, n: nat, onlyFolders: bool)
    requires n <= |es|
    ensures |ChildrenReports(path, es[..n], onlyFolders)| <= |ChildrenReports(path, es, onlyFolders)|
    decreases |es|
  {
    if n < |es| {
      ChildrenPrefix(path, es[..|es| - 1], n, onlyFolders);
      assert es[..|es| - 1][..n] == es[..n];
    } else {
      assert es[..n] == es;
    }
  }

  /** Following the names `names` down from `dir`, through readable
      directories only, leads to the entry `target`. */
  ghost predicate Reaches(dir: Node, names: seq<string>, target: Node)
    decreases names
  {
    if names == [] then target == dir
    else
      && dir.Dir?
      && exists k :: 0 <= k < |dir.entries| && dir.entries[k].name == names[0]
                     && Reaches(dir.entries[k], names[1..], target)
  }

  /** The path the walk builds for the entry reached by `names` from `root`. */
  function JoinPath(root: string, names: seq<string>): (r: string)
    decreases names
  {
    if names == [] then root else JoinPath(ChildPath(root, names[0]), names[1..])
  }

  /** The entries a mode reports: files (never the root itself) in file
      mode, readable directories in folder mode. */
  ghost predicate Tracked(target: Node, names: seq<string>, onlyFolders: bool) {
    if onlyFolders then target.Dir? else target.File? && names != []
  }

  /** The size a tracked entry is reported with. */
  function ReportedSize(target: Node): (r: u64) {
    match target
    case File(_, len) => len
    case Dir(_, entries) => DirectTotal(entries)
    case _ => 0
  }

  /** What the walk reports, independently of the order: exactly the files
      (file mode) or the readable directories (folder mode) that can be
      reached through readable directories, each under the path built from
      the names on the way and with its length (file) or the total length
      of the files directly in it (folder). Unreadable directories and
      entries whose metadata failed contribute nothing. */
  lemma WalkReportsExactly(path: string, dir: Node, onlyFolders: bool, e: Entry)
    ensures e in WalkReports(path, dir, onlyFolders)
        <==> exists names, target :: Reaches(dir, names, target) && Tracked(target, names, onlyFolders)
                                   && e == Entry(JoinPath(path, names), ReportedSize(target))
  {
    if e in WalkReports(path, dir, onlyFolders) {
      var names, target := WalkSound(path, dir, onlyFolders, e);
    }
    forall names, target | Reaches(dir, names, target) && Tracked(target, names, onlyFolders)
                           && e == Entry(JoinPath(path, names), ReportedSize(target))
      ensures e in WalkReports(path, dir, onlyFolders)
    {
      WalkComplete(path, dir, onlyFolders, names, target);
    }
  }

  /** Every report names an entry reachable from `dir`. */
  lemma {:induction false} WalkSound(path: string, dir: Node, onlyFolders: bool, e: Entry)
    returns (names: seq<string>, target: Node)
    requires e in WalkReports(path, dir, onlyFolders)
    ensures Reaches(dir, names, target) && Tracked(target, names, onlyFolders)
    ensures e == Entry(JoinPath(path, names), ReportedSize(target))
    decreases dir, 1
  {
    if e in ChildrenReports(path, dir.entries, onlyFolders) {
      var k, rest;
      k, rest, target := ChildrenSound(path, dir.entries, onlyFolders, e);
      names := [dir.entries[k].name] + rest;
      assert names[1..] == rest;
    } else {
      names, target := [], dir;
    }
  }

  lemma {:induction false} ChildrenSound(path: string, es: seq<Node>, onlyFolders: bool, e: Entry)
    returns (k: nat, rest: seq<string>, target: Node)
    requires e in ChildrenReports(path, es, onlyFolders)
    ensures k < |es| && Reaches(es[k], rest, target) && Tracked(target, [es[k].name] + rest, onlyFolders)
    ensures e == Entry(JoinPath(ChildPath(path, es[k].name), rest), ReportedSize(target))
    decreases es, 0
  {
    var front, last := es[..|es| - 1], es[|es| - 1];
    if e in ChildrenReports(path, front, onlyFolders) {
      k, rest, target := ChildrenSound(path, front, onlyFolders, e);
    } else {
      k := |es| - 1;
      if last.File? {
        rest, target := [], last;
      } else {
        rest, target := WalkSound(ChildPath(path, last.name), last, onlyFolders, e);
      }
    }
  }

  /** Every reachable tracked entry is reported. */
  lemma {:induction false} WalkComplete(path: string, dir: Node, onlyFolders: bool, names: seq<string>, target: Node)
    requires Reaches(dir, names, target) && Tracked(target, names, onlyFolders)
    ensures Entry(JoinPath(path, names), ReportedSize(target)) in WalkReports(path, dir, onlyFolders)
    decreases names
  {
    var e := Entry(JoinPath(path, names), ReportedSize(target));
    if names != [] {
      var k :| 0 <= k < |dir.entries| && dir.entries[k].name == names[0]
               && Reaches(dir.entries[k], names[1..], target);
      var c, sub := dir.entries[k], ChildPath(path, names[0]);
      assert JoinPath(path, names) == JoinPath(sub, names[1..]);
      if names[1..] == [] && c.File? {
        assert e in ChildReports(path, c, onlyFolders);
      } else {
        WalkComplete(sub, c, onlyFolders, names[1..], target);
        assert c.Dir?;
      }
      ChildInChildren(path, dir.entries, k, onlyFolders, e);
    }
  }

  lemma {:induction false} ChildInChildren(path: string, es: seq<Node>, k: nat, onlyFolders: bool, e: Entry)
    requires k < |es| && e in ChildReports(path, es[k], onlyFolders)
    ensures e in ChildrenReports(path, es, onlyFolders)
    decreases |es|
  {
    if k < |es| - 1 {
      ChildInChildren(path, es[..|es| - 1], k, onlyFolders, e);
    }
  }

  /** The number of entries a mode tracks in the tree under `dir`: files
      (file mode) or readable directories (folder mode) reached through
      readable directories. */
  function TrackedCount(dir: Node, onlyFolders: bool): (n: nat)
    decreases dir, 1
  {
    if !dir.Dir? then 0
    else EntriesTrackedCount(dir.entries, onlyFolders) + if onlyFolders then 1 else 0
  }

  function EntriesTrackedCount(es: seq<Node>, onlyFolders: bool): (n: nat)
    decreases es, 0
  {
    if es == [] then 0
    else EntriesTrackedCount(es[..|es| - 1], onlyFolders) + ChildTrackedCount(es[|es| - 1], onlyFolders)
  }

  function ChildTrackedCount(c: Node, onlyFolders: bool): (n: nat)
    decreases c, 2
  {
    if c.File? then (if onlyFolders then 0 else 1)
    else if IsDirectory(c) then TrackedCount(c, onlyFolders)
    else 0
  }

  /** `s` is the path `p` itself or a path below it. */
  ghost predicate Below(p: string, s: string) {
    s == p || p + [SEP] <= s
  }

  /** The first name of a relative path: everything before its first
      separator. */
  function FirstName(t: string): (r: string)
    ensures SEP !in r && r <= t
    ensures |r| < |t| ==> t[|r|] == SEP
  {
    if t == [] || t[0] == SEP then [] else [t[0]] + FirstName(t[1..])
  }

  lemma {:induction false} FirstNameOf(a: string, rest: string)
    requires SEP !in a && (rest == [] || rest[0] == SEP)
    ensures FirstName(a + rest) == a
  {
    if a != [] {
      assert (a + rest)[1..] == a[1..] + rest;
      FirstNameOf(a[1..], rest);
    } else {
      assert a + rest == rest;
    }
  }

  /** A path at or below the child `name` of `path` has `name` as its first
      name after `path`. */
  lemma NameBelow(path: string, name: string, s: string)
    requires SEP !in name && Below(ChildPath(path, name), s)
    ensures |path| < |s| && FirstName(s[|path| + 1..]) == name
  {
    var q := ChildPath(path, name);
    var t := s[|path| + 1..];
    assert s[..|q|] == q;
    assert t[..|name|] == name;
    var rest := t[|name|..];
    assert t == name + rest;
    if rest != [] {
      assert q + [SEP] <= s;
      assert rest[0] == s[|q|];
    }
    FirstNameOf(name, rest);
  }

  /** Every report of the walk from `path` names `path` or a path below it. */
  lemma {:induction false} WalkReportsBelow(path: string, dir: Node, onlyFolders: bool)
    ensures forall e <- WalkReports(path, dir, onlyFolders) :: Below(path, e.itemName)
    decreases dir, 1
  {
    if dir.Dir? {
      ChildrenReportsBelow(path, dir.entries, onlyFolders);
    }
  }

  lemma {:induction false} ChildrenReportsBelow(path: string, es: seq<Node>, onlyFolders: bool)
    ensures forall e <- ChildrenReports(path, es, onlyFolders) :: path + [SEP] <= e.itemName
    decreases es, 0
  {
    if es != [] {
      var c := es[|es| - 1];
      ChildrenReportsBelow(path, es[..|es| - 1], onlyFolders);
      ChildReportsBelow(path, c, onlyFolders);
      forall e <- ChildReports(path, c, onlyFolders) ensures path + [SEP] <= e.itemName {
        BelowChild(path, c.name, e.itemName);
      }
    }
  }

  lemma {:induction false} ChildReportsBelow(path: string, c: Node, onlyFolders: bool)
    ensures forall e <- ChildReports(path, c, onlyFolders) :: Below(ChildPath(path, c.name), e.itemName)
    decreases c, 2
  {
    if IsDirectory(c) {
      WalkReportsBelow(ChildPath(path, c.name), c, onlyFolders);
    }
  }

  lemma BelowChild(path: string, name: string, s: string)
    requires Below(ChildPath(path, name), s)
    ensures path + [SEP] <= s
  {
    var q := ChildPath(path, name);
    assert s[..|q|] == q;
    assert s[..|path| + 1] == q[..|path| + 1] == path + [SEP];
  }

  /** In folder mode a readable directory is reported last, after every
      directory below it, and it is the only report under its own path:
      every earlier report lies strictly below it. */
  lemma FolderReportedLast(path: string, dir: Node)
    requires dir.Dir?
    ensures var r := WalkReports(path, dir, true);
      && r != [] && r[|r| - 1] == Entry(path, DirectTotal(dir.entries))
      && forall i :: 0 <= i < |r| - 1 ==> path + [SEP] <= r[i].itemName
  {
    var children := ChildrenReports(path, dir.entries, true);
    ChildrenReportsBelow(path, dir.entries, true);
    forall i | 0 <= i < |children| ensures path + [SEP] <= children[i].itemName {
      assert children[i] in children;
    }
  }

  /** A directory tree as a file system presents it: the names in one
      directory are distinct, and no name contains the separator. */
  ghost predicate WellFormed(n: Node)
    decreases n, 1
  {
    n.Dir? ==> EntriesWellFormed(n.entries)
  }

  ghost predicate EntriesWellFormed(es: seq<Node>)
    decreases es, 0
  {
    && (forall i :: 0 <= i < |es| ==> SEP !in es[i].name && WellFormed(es[i]))
    && (forall i, j :: 0 <= i < j < |es| ==> es[i].name != es[j].name)
  }

  /** No two entries of `r` carry the same path. */
  ghost predicate DistinctNames(r: seq<Entry>) {
    forall i, j :: 0 <= i < j < |r| ==> r[i].itemName != r[j].itemName
  }

  lemma JoinDistinct(a: seq<Entry>, b: seq<Entry>)
    requires DistinctNames(a) && DistinctNames(b)
    requires forall x, y :: x in a && y in b ==> x.itemName != y.itemName
    ensures DistinctNames(a + b)
  {
    forall i, j | 0 <= i < j < |a + b| ensures (a + b)[i].itemName != (a + b)[j].itemName {
      if i < |a| && |a| <= j {
        assert (a + b)[i] in a && (a + b)[j] in b;
      }
    }
  }

  /** In a well-formed tree the walk never reports the same path twice. */
  lemma {:induction false} WalkReportsDistinct(path: string, dir: Node, onlyFolders: bool)
    requires WellFormed(dir)
    ensures DistinctNames(WalkReports(path, dir, onlyFolders))
    decreases dir, 1
  {
    if dir.Dir? {
      var children := ChildrenReports(path, dir.entries, onlyFolders);
      ChildrenReportsDistinct(path, dir.entries, onlyFolders);
      if onlyFolders {
        ChildrenReportsBelow(path, dir.entries, onlyFolders);
        JoinDistinct(children, [Entry(path, DirectTotal(dir.entries))]);
      } else {
        assert WalkReports(path, dir, onlyFolders) == children + [];
        assert children + [] == children;
      }
    }
  }

  lemma {:induction false} ChildrenReportsDistinct(path: string, es: seq<Node>, onlyFolders: bool)
    requires EntriesWellFormed(es)
    ensures DistinctNames(ChildrenReports(path, es, onlyFolders))
    decreases es, 0
  {
    if es != [] {
      var front, c := es[..|es| - 1], es[|es| - 1];
      assert EntriesWellFormed(front) by {
        forall i, j | 0 <= i < j < |front| ensures front[i].name != front[j].name {
          assert front[i] == es[i] && front[j] == es[j];
        }
      }
      ChildrenReportsDistinct(path, front, onlyFolders);
      ChildReportsDistinct(path, c, onlyFolders);
      ChildrenAvoid(path, front, c.name, onlyFolders);
      ChildReportsNamed(path, c, onlyFolders);
      JoinDistinct(ChildrenReports(path, front, onlyFolders), ChildReports(path, c, onlyFolders));
    }
  }

  lemma {:induction false} ChildReportsDistinct(path: string, c: Node, onlyFolders: bool)
    requires WellFormed(c)
    ensures DistinctNames(ChildReports(path, c, onlyFolders))
    decreases c, 2
  {
    if IsDirectory(c) {
      WalkReportsDistinct(ChildPath(path, c.name), c, onlyFolders);
    }
  }

  /** The reports for the entry `c` of `path` all have `c`'s name as their
      first name after `path`. */
  lemma ChildReportsNamed(path: string, c: Node, onlyFolders: bool)
    requires SEP !in c.name
    ensures forall e <- ChildReports(path, c, onlyFolders) ::
      |path| < |e.itemName| && FirstName(e.itemName[|path| + 1..]) == c.name
  {
    ChildReportsBelow(path, c, onlyFolders);
    forall e <- ChildReports(path, c, onlyFolders)
      ensures |path| < |e.itemName| && FirstName(e.itemName[|path| + 1..]) == c.name
    {
      NameBelow(path, c.name, e.itemName);
    }
  }

  /** No report for the entries `es` of `path` lies under a name none of
      them has. */
  lemma {:induction false} ChildrenAvoid(path: string, es: seq<Node>, x: string, onlyFolders: bool)
    requires forall i :: 0 <= i < |es| ==> SEP !in es[i].name && es[i].name != x
    ensures forall e <- ChildrenReports(path, es, onlyFolders) ::
      |path| < |e.itemName| && FirstName(e.itemName[|path| + 1..]) != x
    decreases |es|
  {
    if es != [] {
      ChildrenAvoid(path, es[..|es| - 1], x, onlyFolders);
      ChildReportsNamed(path, es[|es| - 1], onlyFolders);
    }
  }

  lemma {:induction false} DistinctOnce(r: seq<Entry>, e: Entry)
    requires DistinctNames(r) && e in r
    ensures multiset(r)[e] == 1
  {
    var front, last := r[..|r| - 1], r[|r| - 1];
    assert r == front + [last];
    if e == last {
      assert e !in front by {
        forall i | 0 <= i < |front| ensures front[i] != e {
          assert r[i] == front[i];
        }
      }
    } else {
      assert DistinctNames(front) by {
        forall i, j | 0 <= i < j < |front| ensures front[i].itemName != front[j].itemName {
          assert r[i] == front[i] && r[j] == front[j];
        }
      }
      DistinctOnce(front, e);
    }
  }

  /** In a well-formed tree every tracked node is reported exactly once,
      under the path built from the names leading to it. */
  lemma ReportedOnce(path: string, dir: Node, onlyFolders: bool, names: seq<string>, target: Node)
    requires WellFormed(dir) && Reaches(dir, names, target) && Tracked(target, names, onlyFolders)
    ensures multiset(WalkReports(path, dir, onlyFolders))[Entry(JoinPath(path, names), ReportedSize(target))] == 1
  {
    WalkComplete(path, dir, onlyFolders, names, target);
    WalkReportsDistinct(path, dir, onlyFolders);
    DistinctOnce(WalkReports(path, dir, onlyFolders), Entry(JoinPath(path, names), ReportedSize(target)));
  }
}
