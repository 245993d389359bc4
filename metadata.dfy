/**
  The per-file record of the scan: what `get_file_metadata` builds for a path
  that it can read and stat, and `None` otherwise.
 */
module Metadata {
  import opened Wrappers
  import opened PathNames
  import opened SystemFiles

  /** What `os.stat` reports that the model keeps: the size, and whether
      `datetime.fromtimestamp` can convert the change time. */
  datatype Stat = Stat(size: nat, ctimeInRange: bool)

  /**
    A directory entry that is not a directory, as the walk meets it: its name,
    whether `os.access(path, os.R_OK)` holds, and what `os.stat` returns
    (`None` when it raises).
   */
  datatype FileEntry = FileEntry(name: string, readable: bool, stat: Option<Stat>)

  /**
    One row of the metadata table (the creation time is not modelled).  The
    `filename`, `directory`, `file_extension` and `is_system_file` columns are
    functions of the path, computed as `get_file_metadata` computes them.
   */
  datatype FileRecord = FileRecord(path: string, sizeBytes: nat)
  {
    /** `os.path.basename(filepath)`. */
    function Filename(): (r: string)
      ensures Sep !in r && |r| <= |path| && path[|path| - |r|..] == r
    {
      Basename(path)
    }

    /** `os.path.dirname(filepath)`. */
    function Directory(): (r: string)
      ensures |r| <= |path| && path[..|r|] == r
      ensures r == "" <==> Sep !in path
    {
      Dirname(path)
    }

    /** `os.path.splitext(filepath)[1].lower()`. */
    function FileExtension(): string {
      PathNames.FileExtension(path)
    }

    /** `is_system_file(filepath)`. */
    function IsSystemFile(): bool {
      SystemFiles.IsSystemFile(path)
    }
  }

  /**
    `get_file_metadata(filepath)` for the entry `f` found at `path`: no record
    when the entry is unreadable, when stat fails, or when building the record
    raises; otherwise the record of the path's own fields.
   */
  function GetFileMetadata(path: string, f: FileEntry): (r: Option<FileRecord>)
    ensures r.Some? <==> f.readable && f.stat.Some? && f.stat.value.ctimeInRange
    ensures r.Some? ==> r.value.path == path && r.value.sizeBytes == f.stat.value.size
  {
    if !f.readable then None
    else if f.stat.None? then None
    else if !f.stat.value.ctimeInRange then None
    else Some(FileRecord(path, f.stat.value.size))
  }

  /**
    For the path the walk joins from a directory and an entry name, the record
    names the entry, sits in that directory, and its path parts are the
    directory's parts followed by the name.
   */
  lemma RecordOfJoinedPath(root: string, f: FileEntry, r: FileRecord)
    requires ValidName(f.name)
    requires GetFileMetadata(Join(root, f.name), f) == Some(r)
    ensures r.Filename() == f.name
    ensures AllSlashes(root) || root[|root| - 1] != Sep ==> r.Directory() == root
    ensures Parts(r.path) == Parts(root) + [f.name]
  {
    BasenameOfJoin(root, f.name);
    PartsOfJoin(root, f.name);
    if AllSlashes(root) || root[|root| - 1] != Sep {
      DirnameOfJoin(root, f.name);
    }
  }

  /** The sum of `size_bytes` over some records. */
  function TotalSize(records: seq<FileRecord>): (r: nat)
    ensures forall k :: 0 <= k < |records| ==> records[k].sizeBytes <= r
  {
    if records == [] then 0
    else
      var init := records[..|records| - 1];
      assert forall k :: 0 <= k < |init| ==> init[k] == records[k];
      TotalSize(init) + records[|records| - 1].sizeBytes
  }

  /** The total of a concatenation is the sum of the totals. */
  lemma {:induction false} TotalSizeAppend(a: seq<FileRecord>, b: seq<FileRecord>)
    ensures TotalSize(a + b) == TotalSize(a) + TotalSize(b)
    decreases |b|
  {
    if b == [] {
      assert a + b == a;
    } else {
      assert (a + b)[..|a + b| - 1] == a + b[..|b| - 1];
      TotalSizeAppend(a, b[..|b| - 1]);
    }
  }
}
