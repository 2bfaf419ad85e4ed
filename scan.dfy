/** The composition `main` performs once its options are parsed: a tracker
    of `track` slots, one walk from the given folder, then `print`. */
module Scan {
  import opened Sizes
  import opened Entries
  import opened Sorting
  import opened Tracking
  import opened Walker

  /** The rows printed for a walk of `root` (found at `folder`) with `track`
      slots. */
  function Result(folder: string, root: Node, onlyFolders: bool, track: u8): (rows: seq<Row>)
    requires track >= 1 || WalkReports(folder, root, onlyFolders) == []
  {
    RowsOf(SortBySizeDesc(ReportAll(Initial(track), WalkReports(folder, root, onlyFolders)).slots))
  }

  method Scan(folder: string, root: Node, onlyFolders: bool, track: u8) returns (rows: seq<Row>)
    requires track >= 1 || WalkReports(folder, root, onlyFolders) == []
    ensures rows == Result(folder, root, onlyFolders, track)
  {
    var tracker := new Tracker(track);
    Walk(folder, root, onlyFolders, tracker);
    rows := tracker.Print();
  }

  /** What is printed: exactly `track` rows, largest first, and the entries
      behind them are a choice of the `track` largest among `track`
      placeholders and every report the walk made. */
  lemma ScanResult(folder: string, root: Node, onlyFolders: bool, track: u8)
    requires track >= 1
    ensures var reports := WalkReports(folder, root, onlyFolders);
      var slots := ReportAll(Initial(track), reports).slots;
      var rows := Result(folder, root, onlyFolders, track);
      && |rows| == track
      && (forall i, j :: 0 <= i < j < |rows| ==> rows[i].mb >= rows[j].mb)
      && IsTopK(multiset(SortBySizeDesc(slots)), multiset(Placeholders(track)) + multiset(reports), track)
  {
    var reports := WalkReports(folder, root, onlyFolders);
    var slots := ReportAll(Initial(track), reports).slots;
    ReportsKeepTopK(track, reports);
    PrintedRows(slots);
  }
}
