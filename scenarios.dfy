/** Concrete runs of the model: the tie-break rule, the two walking modes on
    a small tree, an unreadable subdirectory, megabyte truncation and an
    empty directory. */
module Scenarios {
  import opened Sizes
  import opened Entries
  import opened Sorting
  import opened Tracking
  import opened Walker

  /** With two slots, three reports of equal size: the second report lands
      in slot 1 (the last minimum), so the third evicts it. */
  lemma TieBreak()
    ensures ReportAll(Initial(2), [Entry("a", 5), Entry("b", 5), Entry("c", 5)]).slots
         == [Entry("a", 5), Entry("c", 5)]
  {
    var a, b, c := Entry("a", 5), Entry("b", 5), Entry("c", 5);
    var s0 := Initial(2);
    assert s0.slots == [Placeholder, Placeholder];
    var s1 := Step(s0, a);
    assert s1.slots == [a, Placeholder];
    assert s1.minPos == 1 by {
      assert IsLastMin(s1.slots, s1.minPos);
      assert s1.slots[1].size < s1.slots[0].size;
    }
    var s2 := Step(s1, b);
    assert s2.slots == [a, b];
    assert s2.minPos == 1 by {
      assert IsLastMin(s2.slots, s2.minPos);
      assert s2.slots[0].size == s2.slots[1].size;
    }
    var s3 := Step(s2, c);
    assert s3.slots == [a, c];
    assert ReportAll(s0, [a]) == s1 by {
      assert [a][..0] == [];
    }
    assert ReportAll(s0, [a, b]) == s2 by {
      assert [a, b][..1] == [a];
    }
    assert ReportAll(s0, [a, b, c]) == s3 by {
      assert [a, b, c][..2] == [a, b];
    }
  }

  /** A directory `root` holding a 10 MB file and a subdirectory `sub` that
      holds a 20 MB file. */
  function SampleTree(): (n: Node) {
    Dir("root", [File("fileA", 10 * MB_FACTOR), SampleSub()])
  }

  function SampleSub(): (n: Node) {
    Dir("sub", [File("fileB", 20 * MB_FACTOR)])
  }

  lemma SampleSubReports(onlyFolders: bool)
    ensures WalkReports("root/sub", SampleSub(), onlyFolders)
         == if onlyFolders then [Entry("root/sub", 20 * MB_FACTOR)] else [Entry("root/sub/fileB", 20 * MB_FACTOR)]
  {
    var es := [File("fileB", 20 * MB_FACTOR)];
    assert es[..0] == [];
    assert ChildPath("root/sub", "fileB") == "root/sub/fileB";
    assert ChildrenReports("root/sub", es, onlyFolders)
        == if onlyFolders then [] else [Entry("root/sub/fileB", 20 * MB_FACTOR)];
    assert DirectTotal(es) == 20 * MB_FACTOR;
  }

  lemma SampleTreeReports(onlyFolders: bool)
    ensures WalkReports("root", SampleTree(), onlyFolders)
         == if onlyFolders then [Entry("root/sub", 20 * MB_FACTOR), Entry("root", 10 * MB_FACTOR)]
            else [Entry("root/fileA", 10 * MB_FACTOR), Entry("root/sub/fileB", 20 * MB_FACTOR)]
  {
    var fileA := File("fileA", 10 * MB_FACTOR);
    var es := [fileA, SampleSub()];
    var front := ChildrenReports("root", [fileA], onlyFolders);
    var sub := WalkReports("root/sub", SampleSub(), onlyFolders);
    assert ChildrenReports("root", es, onlyFolders) == front + sub by {
      assert es[..1] == [fileA];
      assert ChildPath("root", "sub") == "root/sub";
    }
    assert front == if onlyFolders then [] else [Entry("root/fileA", 10 * MB_FACTOR)] by {
      assert [fileA][..0] == [];
      assert ChildPath("root", "fileA") == "root/fileA";
      assert front == ChildrenReports("root", [], onlyFolders) + ChildReports("root", fileA, onlyFolders);
    }
    SampleSubReports(onlyFolders);
    if onlyFolders {
      assert DirectTotal(es) == 10 * MB_FACTOR by {
        assert es[..1] == [fileA] && [fileA][..0] == [];
      }
    }
  }

  /** Folder mode reports `sub` with 20 MB and then `root` with only the
      10 MB of its direct file; with one slot, `root` is then rejected and
      `root/sub` is what gets printed. */
  lemma FolderModeSample()
    ensures ReportAll(Initial(1), WalkReports("root", SampleTree(), true)).slots
         == [Entry("root/sub", 20 * MB_FACTOR)]
  {
    SampleTreeReports(true);
    var x, y := Entry("root/sub", 20 * MB_FACTOR), Entry("root", 10 * MB_FACTOR);
    var s0 := Initial(1);
    var s1 := Step(s0, x);
    assert s1.slots == [x] && s1.min == 20 * MB_FACTOR;
    assert ReportAll(s0, [x]) == s1 by {
      assert [x][..0] == [];
    }
    assert ReportAll(s0, [x, y]) == Step(s1, y) == s1 by {
      assert [x, y][..1] == [x];
    }
  }

  /** File mode with two slots: both files, the larger first once printed. */
  lemma FileModeSample()
    ensures RowsOf(SortBySizeDesc(ReportAll(Initial(2), WalkReports("root", SampleTree(), false)).slots))
         == [Row("root/sub/fileB", 20), Row("root/fileA", 10)]
  {
    SampleTreeReports(false);
    var x, y := Entry("root/fileA", 10 * MB_FACTOR), Entry("root/sub/fileB", 20 * MB_FACTOR);
    TwoFilesKept(x, y);
    SortTwo(x, y);
    assert ToMb(10 * MB_FACTOR) == 10 && ToMb(20 * MB_FACTOR) == 20;
    assert RowsOf([y, x]) == [Row(y.itemName, ToMb(y.size)), Row(x.itemName, ToMb(x.size))];
  }

  /** Printing order of two entries, the second strictly larger. */
  lemma SortTwo(x: Entry, y: Entry)
    requires x.size < y.size
    ensures SortBySizeDesc([x, y]) == [y, x]
  {
    assert [x, y][..1] == [x] && [x][..0] == [];
    assert SortBySizeDesc([x]) == [x];
    assert Insert([x], y) == Insert([], y) + [x];
  }

  /** Two reports into two fresh slots: the first into slot 0, the second
      into slot 1 (the last minimum after the first). */
  lemma TwoFilesKept(x: Entry, y: Entry)
    requires 0 < x.size <= y.size
    ensures ReportAll(Initial(2), [x, y]).slots == [x, y]
  {
    var s0 := Initial(2);
    assert s0.slots == [Placeholder, Placeholder];
    var s1 := Step(s0, x);
    assert s1.slots == [x, Placeholder];
    assert s1.minPos == 1 by {
      assert IsLastMin(s1.slots, s1.minPos);
      assert s1.slots[1].size < s1.slots[0].size;
    }
    assert ReportAll(s0, [x]) == s1 by {
      assert [x][..0] == [];
    }
    assert ReportAll(s0, [x, y]) == Step(s1, y) by {
      assert [x, y][..1] == [x];
    }
  }

  /** An unreadable subdirectory reports nothing and adds nothing: the
      folder is reported with its 5 MB file only, and the file is still
      reported in file mode. */
  lemma UnreadableSubdirectory(onlyFolders: bool)
    ensures WalkReports("d", Dir("d", [File("f", 5 * MB_FACTOR), UnreadableDir("locked")]), onlyFolders)
         == if onlyFolders then [Entry("d", 5 * MB_FACTOR)] else [Entry("d/f", 5 * MB_FACTOR)]
  {
    var f := File("f", 5 * MB_FACTOR);
    var es := [f, UnreadableDir("locked")];
    assert es[..1] == [f] && [f][..0] == [];
    assert ChildPath("d", "f") == "d/f";
    assert ChildrenReports("d", [f], onlyFolders) == if onlyFolders then [] else [Entry("d/f", 5 * MB_FACTOR)];
    assert ChildReports("d", UnreadableDir("locked"), onlyFolders) == [];
    assert DirectTotal([f]) == 5 * MB_FACTOR;
    assert DirectTotal(es) == 5 * MB_FACTOR;
  }

  /** 1,048,577 bytes print as 1 MB: the conversion truncates. */
  lemma MegabytesTruncate()
    ensures ToMb(1048577) == 1
  {
  }

  /** In file mode an empty directory with three slots prints three
      placeholder rows. */
  lemma EmptyDirectory()
    ensures RowsOf(SortBySizeDesc(ReportAll(Initial(3), WalkReports(".", Dir(".", []), false)).slots))
         == [Row("", 0), Row("", 0), Row("", 0)]
  {
    assert WalkReports(".", Dir(".", []), false) == [];
    var p := Placeholders(3);
    assert p == [Placeholder, Placeholder, Placeholder];
    assert SortBySizeDesc(p) == p;
  }

  /** In folder mode an empty directory still reports itself with size 0.
      That report is not below `min` (0), so it replaces slot 0, and the
      directory is printed first, before two placeholders. */
  lemma EmptyDirectoryFolderMode()
    ensures RowsOf(SortBySizeDesc(ReportAll(Initial(3), WalkReports(".", Dir(".", []), true)).slots))
         == [Row(".", 0), Row("", 0), Row("", 0)]
  {
    var e := Entry(".", 0);
    assert WalkReports(".", Dir(".", []), true) == [e];
    ReportAllOne(Initial(3), e);
    var slots := [e, Placeholder, Placeholder];
    assert Initial(3).slots == [Placeholder, Placeholder, Placeholder];
    assert Step(Initial(3), e).slots == slots;
    assert slots[..1] == [e] && slots[..2] == [e, Placeholder];
    assert SortBySizeDesc([e]) == [e];
    assert SortBySizeDesc([e, Placeholder]) == Insert([e], Placeholder) == [e, Placeholder];
    assert SortBySizeDesc(slots) == Insert([e, Placeholder], Placeholder) == slots;
  }
}
