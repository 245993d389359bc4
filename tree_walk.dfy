/**
  `collect_filesystem_metadata`: a top-down walk of the tree under the start
  path that prunes excluded and unreadable subdirectories and collects one
  record per readable file, with the running byte total.

  The filesystem is an input value.  A directory carries the answer of the
  read-access probe its parent makes (`accessible`) and whether listing it
  succeeds (`listable`); a listing that fails is reported through `onerror`
  and yields nothing.
 */
module TreeWalk {
  import opened Wrappers
  import opened PathNames
  import opened Metadata
  import opened SeqFacts

  datatype Dir = Dir(
    name: string,
    accessible: bool,
    listable: bool,
    subdirs: seq<Dir>,
    files: seq<FileEntry>
  )

  /** The directory names skipped when the caller passes no list. */
  const DefaultExcludeDirs: seq<string> := [".git", "node_modules", "__pycache__", "temp"]

  /** The list the walk uses: the caller's, or the default one when `None`. */
  function ExcludeList(excludeDirs: Option<seq<string>>): (r: seq<string>)
    ensures excludeDirs.Some? ==> r == excludeDirs.value
    ensures excludeDirs.None? ==> r == DefaultExcludeDirs
  {
    if excludeDirs.None? then DefaultExcludeDirs else excludeDirs.value
  }

  /** A subdirectory survives both filters: its name is not excluded and it is readable. */
  predicate Kept(s: Dir, excl: seq<string>) {
    s.name !in excl && s.accessible
  }

  /** The record of the file `f` listed in `root`, if it has one, as a sequence of at most one. */
  function RecordFor(root: string, f: FileEntry): (r: seq<FileRecord>)
    ensures |r| <= 1
  {
    match GetFileMetadata(Join(root, f.name), f)
    case Some(m) => [m]
    case None => []
  }

  /** The records of the files of one directory, in listing order. */
  function FileRecords(root: string, files: seq<FileEntry>): (r: seq<FileRecord>)
    ensures |r| <= |files|
  {
    if files == [] then []
    else FileRecords(root, files[..|files| - 1]) + RecordFor(root, files[|files| - 1])
  }

  /** What the walk collects below the directory `d` found at `root`. */
  function WalkDir(root: string, d: Dir, excl: seq<string>): (r: seq<FileRecord>)
    ensures !d.listable ==> r == []
    ensures d.listable ==> |FileRecords(root, d.files)| <= |r| && r[..|FileRecords(root, d.files)|] == FileRecords(root, d.files)
    decreases d
  {
    if !d.listable then []
    else FileRecords(root, d.files) + WalkChildren(root, d.subdirs, excl)
  }

  /** What the walk collects below the kept directories among `ds`, in order. */
  function WalkChildren(root: string, ds: seq<Dir>, excl: seq<string>): seq<FileRecord>
    decreases ds
  {
    if ds == [] then []
    else
      var s := ds[|ds| - 1];
      WalkChildren(root, ds[..|ds| - 1], excl) +
        (if Kept(s, excl) then WalkDir(Join(root, s.name), s, excl) else [])
  }

  /** `[d for d in dirs if d not in exclude_dirs]`. */
  function WithoutExcluded(ds: seq<Dir>, excl: seq<string>): (r: seq<Dir>)
    ensures |r| <= |ds|
    ensures forall s :: s in r <==> s in ds && s.name !in excl
  {
    if ds == [] then []
    else
      var s := ds[|ds| - 1];
      assert forall t :: t in ds <==> t in ds[..|ds| - 1] || t == s;
      WithoutExcluded(ds[..|ds| - 1], excl) + (if s.name !in excl then [s] else [])
  }

  /** The directories whose read-access probe succeeds. */
  function Accessible(ds: seq<Dir>): (r: seq<Dir>)
    ensures |r| <= |ds|
    ensures forall s :: s in r <==> s in ds && s.accessible
  {
    if ds == [] then []
    else
      var s := ds[|ds| - 1];
      assert forall t :: t in ds <==> t in ds[..|ds| - 1] || t == s;
      Accessible(ds[..|ds| - 1]) + (if s.accessible then [s] else [])
  }

  /** The directories that both filters keep, in order. */
  function KeptDirs(ds: seq<Dir>, excl: seq<string>): (r: seq<Dir>)
    ensures forall i :: 0 <= i < |r| ==> Kept(r[i], excl)
    ensures forall s :: s in r <==> s in ds && Kept(s, excl)
  {
    if ds == [] then []
    else
      var s := ds[|ds| - 1];
      assert forall t :: t in ds <==> t in ds[..|ds| - 1] || t == s;
      KeptDirs(ds[..|ds| - 1], excl) + (if Kept(s, excl) then [s] else [])
  }

  /** Filtering by name and then by access keeps exactly the kept directories. */
  lemma {:induction false} TwoFiltersKeep(ds: seq<Dir>, excl: seq<string>)
    ensures Accessible(WithoutExcluded(ds, excl)) == KeptDirs(ds, excl)
  {
    if ds != [] {
      var init := ds[..|ds| - 1];
      var s := ds[|ds| - 1];
      TwoFiltersKeep(init, excl);
      AccessibleAppend(WithoutExcluded(init, excl), if s.name !in excl then [s] else []);
      if s.name !in excl {
        assert Accessible([s]) == Accessible([s][..0]) + (if s.accessible then [s] else []);
      }
    }
  }

  lemma {:induction false} AccessibleAppend(a: seq<Dir>, b: seq<Dir>)
    ensures Accessible(a + b) == Accessible(a) + Accessible(b)
    decreases |b|
  {
    if b == [] {
      assert a + b == a;
    } else {
      assert (a + b)[..|a + b| - 1] == a + b[..|b| - 1];
      AccessibleAppend(a, b[..|b| - 1]);
    }
  }

  lemma {:induction false} WalkChildrenAppend(root: string, a: seq<Dir>, b: seq<Dir>, excl: seq<string>)
    ensures WalkChildren(root, a + b, excl) == WalkChildren(root, a, excl) + WalkChildren(root, b, excl)
    decreases |b|
  {
    if b == [] {
      assert a + b == a;
    } else {
      assert (a + b)[..|a + b| - 1] == a + b[..|b| - 1];
      WalkChildrenAppend(root, a, b[..|b| - 1], excl);
    }
  }

  /** Walking only the kept directories collects what walking all of them does. */
  lemma {:induction false} WalkKeptDirs(root: string, ds: seq<Dir>, excl: seq<string>)
    ensures WalkChildren(root, KeptDirs(ds, excl), excl) == WalkChildren(root, ds, excl)
  {
    if ds != [] {
      var init := ds[..|ds| - 1];
      var s := ds[|ds| - 1];
      WalkKeptDirs(root, init, excl);
      WalkChildrenAppend(root, KeptDirs(init, excl), if Kept(s, excl) then [s] else [], excl);
      if Kept(s, excl) {
        assert [s][..0] == [];
      }
    }
  }

  /** The records still to come from the pending stack, top (last) first. */
  function WalkPending(stack: seq<(string, Dir)>, excl: seq<string>): seq<FileRecord> {
    if stack == [] then []
    else
      var top := stack[|stack| - 1];
      WalkDir(top.0, top.1, excl) + WalkPending(stack[..|stack| - 1], excl)
  }

  /** The number of directories in a tree, which bounds the walk. */
  function DirCount(d: Dir): nat
    decreases d
  {
    1 + DirsCount(d.subdirs)
  }

  function DirsCount(ds: seq<Dir>): nat
    decreases ds
  {
    if ds == [] then 0 else DirsCount(ds[..|ds| - 1]) + DirCount(ds[|ds| - 1])
  }

  function StackCount(stack: seq<(string, Dir)>): nat {
    if stack == [] then 0 else StackCount(stack[..|stack| - 1]) + DirCount(stack[|stack| - 1].1)
  }

  lemma {:induction false} DirsCountAppend(a: seq<Dir>, b: seq<Dir>)
    ensures DirsCount(a + b) == DirsCount(a) + DirsCount(b)
    decreases |b|
  {
    if b == [] {
      assert a + b == a;
    } else {
      assert (a + b)[..|a + b| - 1] == a + b[..|b| - 1];
      DirsCountAppend(a, b[..|b| - 1]);
    }
  }

  lemma {:induction false} KeptDirsCount(ds: seq<Dir>, excl: seq<string>)
    ensures DirsCount(KeptDirs(ds, excl)) <= DirsCount(ds)
  {
    if ds != [] {
      var s := ds[|ds| - 1];
      KeptDirsCount(ds[..|ds| - 1], excl);
      DirsCountAppend(KeptDirs(ds[..|ds| - 1], excl), if Kept(s, excl) then [s] else []);
      assert [s][..0] == [];
    }
  }

  /** The loop that builds `accessible_dirs`: the directories whose probe succeeds, in order. */
  method AccessibleDirs(dirs: seq<Dir>) returns (accessibleDirs: seq<Dir>)
    ensures accessibleDirs == Accessible(dirs)
  {
    accessibleDirs := [];
    for i := 0 to |dirs|
      invariant accessibleDirs == Accessible(dirs[..i])
    {
      assert dirs[..i + 1][..i] == dirs[..i];
      if dirs[i].accessible {
        accessibleDirs := accessibleDirs + [dirs[i]];
      }
    }
    assert dirs[..|dirs|] == dirs;
  }

  /**
    The loop over `files`: each file's metadata, when there is some, is
    appended to `allMetadata` and its size added to the running total.
   */
  method CollectFiles(root: string, files: seq<FileEntry>, allMetadata: seq<FileRecord>, totalSize: nat)
    returns (allMetadata': seq<FileRecord>, totalSize': nat)
    requires totalSize == TotalSize(allMetadata)
    ensures allMetadata' == allMetadata + FileRecords(root, files)
    ensures totalSize' == TotalSize(allMetadata')
  {
    allMetadata', totalSize' := allMetadata, totalSize;
    for i := 0 to |files|
      invariant allMetadata' == allMetadata + FileRecords(root, files[..i])
      invariant totalSize' == TotalSize(allMetadata')
    {
      var filepath := Join(root, files[i].name);
      var metadata := GetFileMetadata(filepath, files[i]);
      CollectFilesStep(root, files, i, allMetadata, metadata);
      if metadata.Some? {
        TotalSizeAppend(allMetadata', [metadata.value]);
        allMetadata' := allMetadata' + [metadata.value];
        totalSize' := totalSize' + metadata.value.sizeBytes;
      }
    }
    assert files[..|files|] == files;
  }

  /** One turn of the loop over `files` appends that file's record, if any. */
  lemma CollectFilesStep(root: string, files: seq<FileEntry>, i: nat, acc: seq<FileRecord>, m: Option<FileRecord>)
    requires i < |files|
    requires m == GetFileMetadata(Join(root, files[i].name), files[i])
    ensures acc + FileRecords(root, files[..i + 1])
         == acc + FileRecords(root, files[..i]) + (if m.Some? then [m.value] else [])
  {
    assert files[..i + 1][..i] == files[..i];
    ConcatAssoc(acc, FileRecords(root, files[..i]), RecordFor(root, files[i]));
  }

  /**
    `os.walk` pushing the surviving subdirectories in reverse, so that the
    first of them is walked next.
   */
  method PushSubdirs(stack: seq<(string, Dir)>, root: string, dirs: seq<Dir>, ghost excl: seq<string>)
    returns (stack': seq<(string, Dir)>)
    requires forall i :: 0 <= i < |dirs| ==> Kept(dirs[i], excl)
    ensures WalkPending(stack', excl) == WalkChildren(root, dirs, excl) + WalkPending(stack, excl)
    ensures StackCount(stack') == StackCount(stack) + DirsCount(dirs)
    ensures |stack'| == |stack| + |dirs| && stack'[..|stack|] == stack
  {
    stack' := stack;
    var j := |dirs|;
    while j > 0
      invariant 0 <= j <= |dirs|
      invariant WalkPending(stack', excl) == WalkChildren(root, dirs[j..], excl) + WalkPending(stack, excl)
      invariant StackCount(stack') == StackCount(stack) + DirsCount(dirs[j..])
      invariant |stack'| == |stack| + |dirs| - j && stack'[..|stack|] == stack
    {
      j := j - 1;
      PushStep(stack, stack', root, dirs, j, excl);
      stack' := stack' + [(Join(root, dirs[j].name), dirs[j])];
    }
  }

  /** Pushing `dirs[j]` on top puts its walk in front of what was pending. */
  lemma PushStep(stack: seq<(string, Dir)>, stack': seq<(string, Dir)>, root: string, dirs: seq<Dir>, j: nat,
                 excl: seq<string>)
    requires j < |dirs| && Kept(dirs[j], excl)
    requires WalkPending(stack', excl) == WalkChildren(root, dirs[j + 1..], excl) + WalkPending(stack, excl)
    requires StackCount(stack') == StackCount(stack) + DirsCount(dirs[j + 1..])
    requires |stack| <= |stack'| && stack'[..|stack|] == stack
    ensures var pushed := stack' + [(Join(root, dirs[j].name), dirs[j])];
      WalkPending(pushed, excl) == WalkChildren(root, dirs[j..], excl) + WalkPending(stack, excl) &&
      StackCount(pushed) == StackCount(stack) + DirsCount(dirs[j..]) &&
      pushed[..|stack|] == stack
  {
    var top := (Join(root, dirs[j].name), dirs[j]);
    PushOne(stack', top, excl);
    assert dirs[j..][1..] == dirs[j + 1..];
    WalkChildrenCons(root, dirs[j..], excl);
    DirsCountCons(dirs[j..]);
    ConcatAssoc(WalkDir(top.0, top.1, excl), WalkChildren(root, dirs[j + 1..], excl), WalkPending(stack, excl));
    assert (stack' + [top])[..|stack|] == stack'[..|stack|];
  }

  lemma PushOne(stack: seq<(string, Dir)>, top: (string, Dir), excl: seq<string>)
    ensures WalkPending(stack + [top], excl) == WalkDir(top.0, top.1, excl) + WalkPending(stack, excl)
    ensures StackCount(stack + [top]) == StackCount(stack) + DirCount(top.1)
  {
    TakeOfAppend(stack, [top]);
  }

  lemma WalkChildrenCons(root: string, ds: seq<Dir>, excl: seq<string>)
    requires ds != []
    ensures WalkChildren(root, ds, excl)
         == (if Kept(ds[0], excl) then WalkDir(Join(root, ds[0].name), ds[0], excl) else [])
            + WalkChildren(root, ds[1..], excl)
  {
    var d, rest := ds[0], ds[1..];
    assert ds == [d] + rest;
    WalkChildrenAppend(root, [d], rest, excl);
    WalkChildrenSingle(root, d, excl);
  }

  lemma WalkChildrenSingle(root: string, d: Dir, excl: seq<string>)
    ensures WalkChildren(root, [d], excl) == if Kept(d, excl) then WalkDir(Join(root, d.name), d, excl) else []
  {
    assert [d][..0] == [];
  }

  lemma DirsCountCons(ds: seq<Dir>)
    requires ds != []
    ensures DirsCount(ds) == DirCount(ds[0]) + DirsCount(ds[1..])
  {
    assert ds == [ds[0]] + ds[1..];
    DirsCountAppend([ds[0]], ds[1..]);
    assert [ds[0]][..0] == [];
  }

  /**
    Walking a popped listable directory: its files' records, then its kept
    subdirectories pushed in front of the rest of the stack.
   */
  lemma PopStep(acc: seq<FileRecord>, rest: seq<(string, Dir)>, root: string, d: Dir, excl: seq<string>)
    requires d.listable
    ensures acc + (WalkDir(root, d, excl) + WalkPending(rest, excl))
         == acc + FileRecords(root, d.files) + (WalkChildren(root, KeptDirs(d.subdirs, excl), excl) + WalkPending(rest, excl))
    ensures StackCount(rest) + DirsCount(KeptDirs(d.subdirs, excl)) < StackCount(rest) + DirCount(d)
  {
    WalkKeptDirs(root, d.subdirs, excl);
    KeptDirsCount(d.subdirs, excl);
    var files := FileRecords(root, d.files);
    var children := WalkChildren(root, d.subdirs, excl);
    var pending := WalkPending(rest, excl);
    ConcatAssoc(acc, files, children + pending);
    ConcatAssoc(files, children, pending);
  }

  /**
    One turn of the `os.walk` loop: pop the top directory; if it can be
    listed, prune its subdirectories, collect its files and push the
    surviving subdirectories.
   */
  method WalkStep(stack: seq<(string, Dir)>, allMetadata: seq<FileRecord>, totalSize: nat, excl: seq<string>)
    returns (stack': seq<(string, Dir)>, allMetadata': seq<FileRecord>, totalSize': nat)
    requires stack != [] && totalSize == TotalSize(allMetadata)
    ensures allMetadata' + WalkPending(stack', excl) == allMetadata + WalkPending(stack, excl)
    ensures totalSize' == TotalSize(allMetadata')
    ensures StackCount(stack') < StackCount(stack)
  {
    var (root, d) := stack[|stack| - 1];
    var rest := stack[..|stack| - 1];
    SplitLast(stack);
    PushOne(rest, (root, d), excl);
    stack', allMetadata', totalSize' := rest, allMetadata, totalSize;
    if d.listable {
      var dirs := WithoutExcluded(d.subdirs, excl);
      var accessibleDirs := AccessibleDirs(dirs);
      TwoFiltersKeep(d.subdirs, excl);
      allMetadata', totalSize' := CollectFiles(root, d.files, allMetadata, totalSize);
      stack' := PushSubdirs(rest, root, accessibleDirs, excl);
      PopStep(allMetadata, rest, root, d, excl);
    }
  }

  /** The outcome of `collect_filesystem_metadata`. */
  datatype WalkResult =
    | StartPathMissing
    | Collected(records: seq<FileRecord>, totalSize: nat)

  /**
    `collect_filesystem_metadata(start_path, exclude_dirs)`: `start` is what is
    found at `startPath` (`None` when it does not exist).  The walk is the
    stack loop of `os.walk(top, topdown=True)` with the caller's two rewrites
    of `dirs` done before the subdirectories are pushed.
   */
  method CollectFilesystemMetadata(startPath: string, start: Option<Dir>, excludeDirs: Option<seq<string>>)
    returns (r: WalkResult)
    ensures start.None? <==> r.StartPathMissing?
    ensures r.Collected? ==> r.records == WalkDir(startPath, start.value, ExcludeList(excludeDirs))
    ensures r.Collected? ==> r.totalSize == TotalSize(r.records)
  {
    var excl := ExcludeList(excludeDirs);
    if start.None? {
      return StartPathMissing;
    }
    var allMetadata: seq<FileRecord> := [];
    var totalSize: nat := 0;
    var stack: seq<(string, Dir)> := [(startPath, start.value)];
    assert WalkPending(stack, excl) == WalkDir(startPath, start.value, excl);
    while stack != []
      invariant allMetadata + WalkPending(stack, excl) == WalkDir(startPath, start.value, excl)
      invariant totalSize == TotalSize(allMetadata)
      decreases StackCount(stack)
    {
      stack, allMetadata, totalSize := WalkStep(stack, allMetadata, totalSize, excl);
    }
    return Collected(allMetadata, totalSize);
  }

  /** `FileRecords` over a concatenation: the records come in listing order. */
  lemma {:induction false} FileRecordsAppend(root: string, a: seq<FileEntry>, b: seq<FileEntry>)
    ensures FileRecords(root, a + b) == FileRecords(root, a) + FileRecords(root, b)
    decreases |b|
  {
    if b == [] {
      assert a + b == a;
    } else {
      assert (a + b)[..|a + b| - 1] == a + b[..|b| - 1];
      FileRecordsAppend(root, a, b[..|b| - 1]);
      ConcatAssoc(FileRecords(root, a), FileRecords(root, b[..|b| - 1]), RecordFor(root, b[|b| - 1]));
    }
  }

  /** Every record of a directory's files is the metadata of one of its files. */
  lemma {:induction false} FileRecordsSound(root: string, files: seq<FileEntry>, r: FileRecord) returns (i: nat)
    requires r in FileRecords(root, files)
    ensures i < |files| && GetFileMetadata(Join(root, files[i].name), files[i]) == Some(r)
  {
    var init := files[..|files| - 1];
    var last := RecordFor(root, files[|files| - 1]);
    assert FileRecords(root, files) == FileRecords(root, init) + last;
    if r in FileRecords(root, init) {
      i := FileRecordsSound(root, init, r);
    } else {
      i := |files| - 1;
      assert r in last;
      RecordForIs(root, files[i], r);
    }
  }

  lemma RecordForIs(root: string, f: FileEntry, r: FileRecord)
    requires r in RecordFor(root, f)
    ensures GetFileMetadata(Join(root, f.name), f) == Some(r)
  {
  }

  /** Every file with metadata contributes its record. */
  lemma {:induction false} FileRecordsComplete(root: string, files: seq<FileEntry>, i: nat)
    requires i < |files| && GetFileMetadata(Join(root, files[i].name), files[i]).Some?
    ensures GetFileMetadata(Join(root, files[i].name), files[i]).value in FileRecords(root, files)
  {
    var init := files[..|files| - 1];
    if i < |files| - 1 {
      assert init[i] == files[i];
      FileRecordsComplete(root, init, i);
    }
  }

  /** A record below a list of subdirectories comes from the walk of one kept subdirectory. */
  lemma {:induction false} WalkChildrenSound(root: string, ds: seq<Dir>, excl: seq<string>, r: FileRecord)
    returns (k: nat)
    requires r in WalkChildren(root, ds, excl)
    ensures k < |ds| && Kept(ds[k], excl) && r in WalkDir(Join(root, ds[k].name), ds[k], excl)
  {
    var init := ds[..|ds| - 1];
    if r in WalkChildren(root, init, excl) {
      k := WalkChildrenSound(root, init, excl, r);
    } else {
      k := |ds| - 1;
    }
  }

  /** The walk of a kept subdirectory is part of the walk of the list. */
  lemma {:induction false} WalkChildrenComplete(root: string, ds: seq<Dir>, excl: seq<string>, k: nat, r: FileRecord)
    requires k < |ds| && Kept(ds[k], excl) && r in WalkDir(Join(root, ds[k].name), ds[k], excl)
    ensures r in WalkChildren(root, ds, excl)
  {
    var init := ds[..|ds| - 1];
    if k < |ds| - 1 {
      assert init[k] == ds[k];
      WalkChildrenComplete(root, init, excl, k, r);
    }
  }

  /**
    The directory reached from `d` at `root` by following `route`, one
    subdirectory index per level, with its path; `None` when some step
    leaves a directory that cannot be listed, or enters one the walk prunes.
   */
  function Descend(root: string, d: Dir, route: seq<nat>, excl: seq<string>): Option<(string, Dir)>
    decreases |route|
  {
    if route == [] then Some((root, d))
    else if !d.listable || route[0] >= |d.subdirs| || !Kept(d.subdirs[route[0]], excl) then None
    else
      var s := d.subdirs[route[0]];
      Descend(Join(root, s.name), s, route[1..], excl)
  }

  /** `f` is the `i`-th file of a listed directory that `route` reaches. */
  predicate FileReached(root: string, d: Dir, route: seq<nat>, i: nat, excl: seq<string>) {
    var t := Descend(root, d, route, excl);
    t.Some? && t.value.1.listable && i < |t.value.1.files|
  }

  /** The path and entry of the file that `FileReached` names. */
  function ReachedFile(root: string, d: Dir, route: seq<nat>, i: nat, excl: seq<string>): (string, FileEntry)
    requires FileReached(root, d, route, i, excl)
  {
    var t := Descend(root, d, route, excl).value;
    (Join(t.0, t.1.files[i].name), t.1.files[i])
  }

  /**
    Soundness of the walk: every record collected is the metadata of a file in
    a listed directory reached through kept (not excluded, readable)
    subdirectories at every depth.
   */
  lemma {:induction false} WalkDirSound(root: string, d: Dir, excl: seq<string>, r: FileRecord)
    returns (route: seq<nat>, i: nat)
    requires r in WalkDir(root, d, excl)
    ensures FileReached(root, d, route, i, excl)
    ensures var (p, f) := ReachedFile(root, d, route, i, excl); GetFileMetadata(p, f) == Some(r)
    decreases d
  {
    if r in FileRecords(root, d.files) {
      route := [];
      i := FileRecordsSound(root, d.files, r);
    } else {
      var k := WalkChildrenSound(root, d.subdirs, excl, r);
      var s := d.subdirs[k];
      var rest;
      rest, i := WalkDirSound(Join(root, s.name), s, excl, r);
      route := [k] + rest;
      assert route[1..] == rest;
    }
  }

  /**
    Completeness of the walk: every file with metadata in a listed directory
    reached through kept subdirectories has its record collected.
   */
  lemma {:induction false} WalkDirComplete(root: string, d: Dir, excl: seq<string>, route: seq<nat>, i: nat)
    requires FileReached(root, d, route, i, excl)
    requires var (p, f) := ReachedFile(root, d, route, i, excl); GetFileMetadata(p, f).Some?
    ensures var (p, f) := ReachedFile(root, d, route, i, excl); GetFileMetadata(p, f).value in WalkDir(root, d, excl)
    decreases |route|
  {
    if route == [] {
      FileRecordsComplete(root, d.files, i);
    } else {
      var s := d.subdirs[route[0]];
      WalkDirComplete(Join(root, s.name), s, excl, route[1..], i);
      var (p, f) := ReachedFile(root, d, route, i, excl);
      WalkChildrenComplete(root, d.subdirs, excl, route[0], GetFileMetadata(p, f).value);
    }
  }

  /** The start directory's own name and access bit are never tested: only its subdirectories are filtered. */
  lemma WalkIgnoresStartEntry(root: string, d: Dir, excl: seq<string>, name: string, accessible: bool)
    ensures WalkDir(root, d.(name := name, accessible := accessible), excl) == WalkDir(root, d, excl)
  {
  }

  /** Every entry name in the tree is a real directory entry name. */
  predicate AllNamesValid(d: Dir)
    decreases d
  {
    (forall i :: 0 <= i < |d.files| ==> ValidName(d.files[i].name)) &&
    (forall k :: 0 <= k < |d.subdirs| ==> ValidName(d.subdirs[k].name) && AllNamesValid(d.subdirs[k]))
  }

  /** Descending keeps names valid and extends the path parts of the start. */
  lemma {:induction false} DescendParts(root: string, d: Dir, route: seq<nat>, excl: seq<string>)
    requires AllNamesValid(d) && Descend(root, d, route, excl).Some?
    ensures var (p, e) := Descend(root, d, route, excl).value;
      AllNamesValid(e) && |Parts(root)| <= |Parts(p)| && Parts(p)[..|Parts(root)|] == Parts(root)
    decreases |route|
  {
    if route != [] {
      var s := d.subdirs[route[0]];
      var q := Join(root, s.name);
      DescendParts(q, s, route[1..], excl);
      PartsOfJoin(root, s.name);
      var p := Descend(root, d, route, excl).value.0;
      assert Parts(p)[..|Parts(q)|] == Parts(q);
      assert Parts(q)[..|Parts(root)|] == Parts(root);
    }
  }

  /**
    Every collected record lies strictly below the start path: its parts
    extend the start's parts and end with the file's name.
   */
  lemma WalkRecordParts(root: string, d: Dir, excl: seq<string>, r: FileRecord)
    requires AllNamesValid(d) && r in WalkDir(root, d, excl)
    ensures |Parts(root)| < |Parts(r.path)| && Parts(r.path)[..|Parts(root)|] == Parts(root)
    ensures Parts(r.path)[|Parts(r.path)| - 1] == r.Filename()
  {
    var route, i := WalkDirSound(root, d, excl, r);
    DescendParts(root, d, route, excl);
    var (p, e) := Descend(root, d, route, excl).value;
    RecordOfJoinedPath(p, e.files[i], r);
    ExtendPrefix(Parts(root), Parts(p), e.files[i].name);
  }
}
