/**
  `save_metadata_and_visualizations`: nothing happens for an empty scan;
  otherwise the graph is attempted (a failure is reported and the save goes
  on) and the summary is computed from the records.
 */
module Report {
  import opened Sums
  import opened SeqFacts
  import opened PathNames
  import opened Metadata
  import opened TreeWalk
  import opened HierarchyGraph
  import opened NodeWeights

  /** The counted fields of `summary.json` (the scan time and platform are not modelled). */
  datatype Summary = Summary(
    totalFiles: nat,
    totalSizeBytes: nat,
    fileTypes: map<string, nat>,
    systemFilesCount: nat,
    userFilesCount: nat
  )

  /** The number of occurrences of `x` in `xs`. */
  function Count(xs: seq<string>, x: string): (r: nat)
    ensures r <= |xs|
    ensures r == 0 <==> x !in xs
  {
    if xs == [] then 0
    else
      assert x in xs <==> x in xs[..|xs| - 1] || x == xs[|xs| - 1];
      Count(xs[..|xs| - 1], x) + (if xs[|xs| - 1] == x then 1 else 0)
  }

  /**
    `Series.value_counts().to_dict()`: each distinct value with its number of
    occurrences.
   */
  function ValueCounts(xs: seq<string>): (r: map<string, nat>)
    ensures forall x :: x in r <==> x in xs
  {
    if xs == [] then map[]
    else
      var m := ValueCounts(xs[..|xs| - 1]);
      var x := xs[|xs| - 1];
      assert forall y :: y in xs <==> y in xs[..|xs| - 1] || y == x;
      m[x := (if x in m then m[x] else 0) + 1]
  }

  /** Each value's entry is the number of its occurrences, so it is positive. */
  lemma {:induction false} ValueCountsAreCounts(xs: seq<string>, x: string)
    requires x in ValueCounts(xs)
    ensures ValueCounts(xs)[x] == Count(xs, x) && ValueCounts(xs)[x] >= 1
  {
    var init := xs[..|xs| - 1];
    if x in ValueCounts(init) {
      ValueCountsAreCounts(init, x);
    } else {
      assert x !in init;
    }
  }

  /** The `file_extension` column. */
  function Extensions(rs: seq<FileRecord>): (r: seq<string>)
    ensures |r| == |rs| && forall i :: 0 <= i < |rs| ==> r[i] == rs[i].FileExtension()
  {
    seq(|rs|, i requires 0 <= i < |rs| => rs[i].FileExtension())
  }

  /** The number of records flagged as system files. */
  function SystemCount(rs: seq<FileRecord>): (r: nat)
    ensures r <= |rs|
    ensures r == 0 <==> forall i :: 0 <= i < |rs| ==> !rs[i].IsSystemFile()
  {
    if rs == [] then 0
    else
      var init := rs[..|rs| - 1];
      assert forall i :: 0 <= i < |init| ==> init[i] == rs[i];
      SystemCount(init) + (if rs[|rs| - 1].IsSystemFile() then 1 else 0)
  }

  /** The number of records not flagged as system files. */
  function UserCount(rs: seq<FileRecord>): (r: nat)
    ensures r <= |rs|
    ensures r == 0 <==> forall i :: 0 <= i < |rs| ==> rs[i].IsSystemFile()
  {
    if rs == [] then 0
    else
      var init := rs[..|rs| - 1];
      assert forall i :: 0 <= i < |init| ==> init[i] == rs[i];
      UserCount(init) + (if rs[|rs| - 1].IsSystemFile() then 0 else 1)
  }

  /** The summary of a non-empty metadata list. */
  function MakeSummary(rs: seq<FileRecord>): (s: Summary)
    ensures s.totalFiles == |rs|
    ensures s.totalSizeBytes == TotalSize(rs)
    ensures s.systemFilesCount + s.userFilesCount == s.totalFiles
    ensures forall x :: x in s.fileTypes <==> exists i :: 0 <= i < |rs| && rs[i].FileExtension() == x
  {
    SystemPlusUser(rs);
    ExtensionsMembers(rs);
    Summary(|rs|, TotalSize(rs), ValueCounts(Extensions(rs)), SystemCount(rs), UserCount(rs))
  }

  /** An extension occurs in the column exactly when some record has it. */
  lemma ExtensionsMembers(rs: seq<FileRecord>)
    ensures forall x :: x in Extensions(rs) <==> exists i :: 0 <= i < |rs| && rs[i].FileExtension() == x
  {
  }

  /** Every record is either a system file or a user file. */
  lemma {:induction false} SystemPlusUser(rs: seq<FileRecord>)
    ensures SystemCount(rs) + UserCount(rs) == |rs|
  {
    if rs != [] {
      SystemPlusUser(rs[..|rs| - 1]);
    }
  }

  /** The per-extension counts add up to the number of records. */
  lemma {:induction false} ValueCountsTotal(xs: seq<string>)
    ensures SumOver(ValueCounts(xs).Keys, ValueCounts(xs)) == |xs|
  {
    if xs != [] {
      var init := xs[..|xs| - 1];
      var x := xs[|xs| - 1];
      var m := ValueCounts(init);
      ValueCountsTotal(init);
      ValueCountsSnoc(xs);
      SumOverBump(m, x);
    }
  }

  /** One more occurrence of the last value. */
  lemma ValueCountsSnoc(xs: seq<string>)
    requires xs != []
    ensures var m, x := ValueCounts(xs[..|xs| - 1]), xs[|xs| - 1];
      ValueCounts(xs) == m[x := (if x in m then m[x] else 0) + 1]
  {
  }

  /** Counting a key once more adds one to the sum of the counts. */
  lemma SumOverBump<K>(m: map<K, nat>, x: K)
    ensures var m' := m[x := (if x in m then m[x] else 0) + 1];
      SumOver(m'.Keys, m') == SumOver(m.Keys, m) + 1
  {
    var m' := m[x := (if x in m then m[x] else 0) + 1];
    SumOverRemove(m'.Keys, m', x);
    if x in m {
      SumOverRemove(m.Keys, m, x);
      assert m'.Keys - {x} == m.Keys - {x};
      SumOverAgree(m.Keys - {x}, m, m');
    } else {
      assert m'.Keys - {x} == m.Keys;
      SumOverAgree(m.Keys, m, m');
    }
  }

  /** The `file_types` of a summary add up to `total_files`. */
  lemma FileTypesSumToTotal(rs: seq<FileRecord>)
    ensures var s := MakeSummary(rs); SumOver(s.fileTypes.Keys, s.fileTypes) == s.totalFiles
  {
    ValueCountsTotal(Extensions(rs));
  }

  /** What one call leaves behind. */
  datatype SaveOutcome =
    | NoData                                   // `df.empty`: nothing is written
    | Saved(visualized: bool, summary: Summary) // the figure, if drawn, and the summary

  /**
    `save_metadata_and_visualizations(metadata, output_dir)`: an empty list
    returns at once; otherwise the graph is attempted, an exception from it
    only means no figure, and the summary of all records is written.
   */
  method SaveMetadataAndVisualizations(metadata: seq<FileRecord>) returns (r: SaveOutcome)
    ensures r == NoData <==> metadata == []
    ensures r.Saved? ==> r.summary == MakeSummary(metadata)
    ensures r.Saved? ==> (r.visualized <==> exists n :: n in SizesOf(Rows(metadata)) && SizesOf(Rows(metadata))[n] > 0)
  {
    if |metadata| == 0 {
      return NoData;
    }
    var graph := CreateDirectoryGraph(metadata);
    SizesKeys(Rows(metadata));
    var summary := MakeSummary(metadata);
    return Saved(graph.Drawn?, summary);
  }

  /**
    Behind the empty guard, the records of a scan always give the graph nodes,
    so `max` is never taken over no sizes.
   */
  lemma ScanRecordsGiveNodes(root: string, d: Dir, excl: seq<string>)
    requires AllNamesValid(d) && WalkDir(root, d, excl) != []
    ensures NodesOf(Rows(WalkDir(root, d, excl))) != {}
  {
    var rs := WalkDir(root, d, excl);
    WalkRecordParts(root, d, excl, rs[0]);
    var p := Parts(rs[0].path);
    assert PrefixNode(p[..1], p);
    assert Rows(rs)[0].parts == p;
    NodeOfRecord(Rows(rs), 0, p[..1]);
  }

  /** The summary's byte total is the running total the scan returns. */
  lemma SummaryTotalIsScanTotal(records: seq<FileRecord>, totalSize: nat)
    requires totalSize == TotalSize(records)
    ensures MakeSummary(records).totalSizeBytes == totalSize
  {
  }
}
