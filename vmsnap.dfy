/** The `vmsnap VMXPATH` command: from the .vmx path to the space-separated list of disks, the
    root snapshot's disk first and the active disk last. The file system is the map `files`
    from path to the lines grub_file_getline would deliver; a missing path is a failed open. */
module VmSnapCommand {
  import opened Types
  import opened CStrings
  import opened ConfigValues
  import opened Vmx
  import opened Snapshots
  import opened Chain
  import opened SnapshotTables

  type Files = map<string, seq<string>>

  /** Every line of every file is a C string, as the line reader delivers them. */
  predicate Readable(files: Files) {
    forall f :: f in files ==> forall i :: 0 <= i < |files[f]| ==> IsCString(files[f][i])
  }

  /** The chosen disk fits curdisk and the disks buffer, and is not empty. */
  lemma SelectedDiskFits(lines: seq<string>)
    ensures SelectedDisk(lines).Ok? ==> 0 < |SelectedDisk(lines).value| < NameSize
  {
    if SelectedDisk(lines).Ok? {
      FirstDiskIsFirstOffer(Candidates(lines), SelectedDisk(lines).value);
    }
  }

  /** The chosen disk of C string lines is a C string. */
  lemma SelectedDiskIsCString(lines: seq<string>)
    requires forall i :: 0 <= i < |lines| ==> IsCString(lines[i])
    ensures SelectedDisk(lines).Ok? ==> IsCString(SelectedDisk(lines).value)
  {
    if SelectedDisk(lines).Ok? {
      var v := SelectedDisk(lines).value;
      var cs := Candidates(lines);
      FirstDiskIsFirstOffer(cs, v);
      var i: nat :| FirstOfferAt(cs, i) && cs[i] == Some(v) && 0 < |v| < NameSize;
      assert Candidate(lines[i]) == Some(v);
      ValueIsCString(lines[i]);
    }
  }

  /** What the command returns for its arguments and the files it can open. */
  function Command(argv: seq<string>, files: Files): Result<string> {
    if |argv| != 1 then Err(FilenameExpected)
    else
      match VmsdPath(argv[0])
      case Err(e) => Err(e)
      case Ok(vmsd) =>
        if argv[0] !in files then Err(VmxOpenFailed)
        else
          match SelectedDisk(files[argv[0]])
          case Err(e) => Err(e)
          case Ok(disk) =>
            if vmsd !in files then Ok(disk)
            else
              match BuildTable(files[vmsd])
              case Err(e) => Err(e)
              case Ok(t) =>
                SelectedDiskFits(files[argv[0]]);
                Walk(t.records, t.currentUid, disk)
  }

  /** grub_cmd_vmsnap. */
  method VmSnap(argv: seq<string>, files: Files) returns (r: Result<string>)
    requires forall i :: 0 <= i < |argv| ==> IsCString(argv[i])
    requires Readable(files)
    ensures r == Command(argv, files)
  {
    if |argv| != 1 {
      return Err(FilenameExpected);
    }
    var vmsdpath := DeriveVmsdPath(argv[0]);
    if vmsdpath.Err? {
      return Err(vmsdpath.error);
    }
    if argv[0] !in files {
      return Err(VmxOpenFailed);
    }
    var curdisk := SelectActiveDisk(files[argv[0]]);
    if curdisk.Err? {
      return Err(curdisk.error);
    }
    if vmsdpath.value !in files {
      return Ok(curdisk.value);
    }
    var table := new SnapshotTable();
    var err := table.Load(files[vmsdpath.value]);
    if err.Some? {
      return Err(err.value);
    }
    SelectedDiskFits(files[argv[0]]);
    SelectedDiskIsCString(files[argv[0]]);
    r := table.ResolveChain(curdisk.value);
  }

  // ---------------------------------------------------------------- properties

  /** Without a .vmsd file the command returns the active disk alone. */
  lemma NoVmsdActiveDiskOnly(argv: seq<string>, files: Files)
    requires |argv| == 1 && VmsdPath(argv[0]).Ok? && argv[0] in files
    requires SelectedDisk(files[argv[0]]).Ok? && VmsdPath(argv[0]).value !in files
    ensures Command(argv, files) == SelectedDisk(files[argv[0]])
  {
  }

  /** A .vmsd file without `snapshotN...` lines has no record for snapshot.current to name. */
  lemma NoSnapshotsNotInChain(argv: seq<string>, files: Files)
    requires |argv| == 1 && VmsdPath(argv[0]).Ok? && argv[0] in files
    requires SelectedDisk(files[argv[0]]).Ok?
    requires VmsdPath(argv[0]).value in files
    requires var lines := files[VmsdPath(argv[0]).value];
      forall i :: 0 <= i < |lines| ==> !IsEntryLine(lines[i])
    requires BuildTable(files[VmsdPath(argv[0]).value]).Ok?
    ensures Command(argv, files) == Err(NotInChain)
  {
    var lines := files[VmsdPath(argv[0]).value];
    NoEntryLinesNoRecords(Empty, lines);
    var t := BuildTable(lines).value;
    SelectedDiskFits(files[argv[0]]);
    UnknownUidNotInChain(t.records, t.currentUid, SelectedDisk(files[argv[0]]).value);
  }

  /** The list the command returns always ends with the active disk, preceded by the disk
      names of a chain of snapshots from snapshot.current to a root, root first, when the
      .vmsd file exists. */
  lemma CommandEndsWithActiveDisk(argv: seq<string>, files: Files)
    requires Command(argv, files).Ok?
    ensures |argv| == 1 && argv[0] in files && SelectedDisk(files[argv[0]]).Ok?
    ensures var disk := SelectedDisk(files[argv[0]]).value;
      var s := Command(argv, files).value;
      |disk| <= |s| && s[|s| - |disk|..] == disk
    ensures var vmsd := VmsdPath(argv[0]).value;
      var disk := SelectedDisk(files[argv[0]]).value;
      vmsd in files ==>
        BuildTable(files[vmsd]).Ok?
        && exists path :: (IsChain(BuildTable(files[vmsd]).value.records,
                                    BuildTable(files[vmsd]).value.currentUid, path)
                           && Command(argv, files).value == Spelled(BuildTable(files[vmsd]).value.records, path) + disk)
  {
    var vmsd := VmsdPath(argv[0]).value;
    var disk := SelectedDisk(files[argv[0]]).value;
    var s := Command(argv, files).value;
    if vmsd in files {
      var t := BuildTable(files[vmsd]).value;
      SelectedDiskFits(files[argv[0]]);
      WalkSound(t.records, t.currentUid, disk);
      var path :| IsChain(t.records, t.currentUid, path)
        && |Spelled(t.records, path)| + |disk| < MaxRetBuf
        && Walk(t.records, t.currentUid, disk).value == Spelled(t.records, path) + disk;
      assert s == Spelled(t.records, path) + disk;
      assert s[|s| - |disk|..] == disk;
    } else {
      assert s == disk;
    }
  }
}
