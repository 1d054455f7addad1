/** The .vmx side of `vmsnap`: deriving the .vmsd path from the .vmx path, and choosing the
    active disk among the .vmx file's attachment lines. */
module Vmx {
  import opened Types
  import opened CStrings
  import opened ConfigValues

  const FileNameKey: string := ".fileName = \""

  /** The line names a device on one of the four buses the command accepts. */
  predicate OnBus(line: string) {
    "ide" <= line || "sata" <= line || "scsi" <= line || "nvme" <= line
  }

  /** A removable-media image: its name ends in `iso` or `flp`, compared byte for byte. */
  predicate IsRemovable(v: string) {
    |v| >= 3 && (v[|v| - 3..] == "iso" || v[|v| - 3..] == "flp")
  }

  /** The disk name a .vmx line offers: the value of an attachment line (one holding
      `.fileName = "` and naming a bus) that is not a removable-media image. */
  function Candidate(line: string): Option<string> {
    if Find(line, FileNameKey).None? || !OnBus(line) then None
    else match ConfigValue(line)
      case None => None
      case Some(v) => if IsRemovable(v) then None else Some(v)
  }

  /** What each line of the .vmx file offers, in order. */
  function Candidates(lines: seq<string>): seq<Option<string>> {
    seq(|lines|, i requires 0 <= i < |lines| => Candidate(lines[i]))
  }

  /** The outcome of the scan over what the lines offer: the first disk name offered, which
      must fit curdisk[256] and be non-empty. */
  function FirstDisk(cs: seq<Option<string>>): Result<string>
  {
    if cs == [] then Err(NoDisk)
    else match cs[0]
      case None => FirstDisk(cs[1..])
      case Some(v) =>
        if |v| >= NameSize then Err(DiskNameTooLong)
        else if v == [] then Err(NoDisk)
        else Ok(v)
  }

  /** The active disk chosen from the .vmx file's lines. */
  function SelectedDisk(lines: seq<string>): Result<string> {
    FirstDisk(Candidates(lines))
  }

  /** Index i holds the first offer of cs. */
  predicate FirstOfferAt(cs: seq<Option<string>>, i: nat) {
    i < |cs| && cs[i].Some? && forall j :: 0 <= j < i ==> cs[j].None?
  }

  /** The .vmsd path: the .vmx path cut at its last '.', followed by `.vmsd`. Both paths live
      in 256-byte buffers. */
  function VmsdPath(vmx: string): Result<string> {
    if |vmx| >= NameSize then Err(PathTooLong)
    else match LastIndex(vmx, '.')
      case None => Err(InvalidVmxPath)
      case Some(d) => if d + |".vmsd"| >= NameSize then Err(PathTooLong) else Ok(vmx[..d] + ".vmsd")
  }

  // ---------------------------------------------------------------- properties

  /** The four CMPHEAD tests of the loop are the bus prefix test. */
  lemma BusByCmpHead(line: string)
    requires IsCString(line)
    ensures (CmpHead(line, "ide") == 0 || CmpHead(line, "sata") == 0 || CmpHead(line, "scsi") == 0
             || CmpHead(line, "nvme") == 0) <==> OnBus(line)
  {
    CmpHeadIsPrefix(line, "ide");
    CmpHeadIsPrefix(line, "sata");
    CmpHeadIsPrefix(line, "scsi");
    CmpHeadIsPrefix(line, "nvme");
  }

  /** A line holding `.fileName = "` always has a value: the key ends in the value marker. */
  lemma FileNameKeyHasValue(line: string)
    requires Find(line, FileNameKey).Some?
    ensures ConfigValue(line).Some?
  {
    FindIsFirstOccurrence(line, FileNameKey);
    var i := Find(line, FileNameKey).value - |FileNameKey|;
    assert line[i..i + |FileNameKey|][9..] == Marker;
    assert line[i + 9..i + 13] == Marker;
    assert OccursAt(line, Marker, i + 9);
    ConfigValueFound(line);
  }

  /** The chosen disk is the first offer, and it fits and is non-empty; conversely such a
      first offer is chosen. */
  lemma {:induction false} FirstDiskIsFirstOffer(cs: seq<Option<string>>, v: string)
    ensures FirstDisk(cs) == Ok(v) <==>
      exists i: nat :: FirstOfferAt(cs, i) && cs[i] == Some(v) && 0 < |v| < NameSize
    decreases |cs|
  {
    if cs == [] {
    } else if cs[0].Some? {
      if FirstDisk(cs) == Ok(v) {
        assert FirstOfferAt(cs, 0);
      }
    } else {
      FirstDiskIsFirstOffer(cs[1..], v);
      if FirstDisk(cs) == Ok(v) {
        var i: nat :| FirstOfferAt(cs[1..], i) && cs[1..][i] == Some(v) && 0 < |v| < NameSize;
        assert FirstOfferAt(cs, i + 1);
      }
      if exists i: nat :: FirstOfferAt(cs, i) && cs[i] == Some(v) && 0 < |v| < NameSize {
        var i: nat :| FirstOfferAt(cs, i) && cs[i] == Some(v) && 0 < |v| < NameSize;
        assert i != 0;
        assert FirstOfferAt(cs[1..], i - 1);
      }
    }
  }

  /** With no line offering a disk, the command has no disk. */
  lemma {:induction false} NoOfferNoDisk(cs: seq<Option<string>>)
    requires forall i :: 0 <= i < |cs| ==> cs[i].None?
    ensures FirstDisk(cs) == Err(NoDisk)
    decreases |cs|
  {
    if cs != [] {
      NoOfferNoDisk(cs[1..]);
    }
  }

  /** Once an offer has been met, no later line is consulted. */
  lemma {:induction false} FirstDiskIgnoresLater(cs: seq<Option<string>>, later: seq<Option<string>>)
    requires exists i :: 0 <= i < |cs| && cs[i].Some?
    ensures FirstDisk(cs + later) == FirstDisk(cs)
    decreases |cs|
  {
    assert (cs + later)[0] == cs[0];
    if cs[0].None? {
      var i :| 0 <= i < |cs| && cs[i].Some?;
      assert cs[1..][i - 1].Some?;
      assert (cs + later)[1..] == cs[1..] + later;
      FirstDiskIgnoresLater(cs[1..], later);
    }
  }

  /** What lines followed by later lines offer. */
  lemma CandidatesAppend(lines: seq<string>, later: seq<string>)
    ensures Candidates(lines + later) == Candidates(lines) + Candidates(later)
  {
    var l := lines + later;
    forall i | 0 <= i < |l|
      ensures Candidates(l)[i] == (Candidates(lines) + Candidates(later))[i]
    {
      if i < |lines| {
        assert l[i] == lines[i];
      } else {
        assert l[i] == later[i - |lines|];
      }
    }
  }

  /** Disk selection on lines: the lines after the first candidate line are never consulted. */
  lemma SelectedDiskIgnoresLaterLines(lines: seq<string>, later: seq<string>)
    requires exists i :: 0 <= i < |lines| && Candidate(lines[i]).Some?
    ensures SelectedDisk(lines + later) == SelectedDisk(lines)
  {
    var i :| 0 <= i < |lines| && Candidate(lines[i]).Some?;
    assert Candidates(lines)[i].Some?;
    CandidatesAppend(lines, later);
    FirstDiskIgnoresLater(Candidates(lines), Candidates(later));
  }

  /** The key occurs in the line, so FIND finds it. */
  lemma FileNameKeyFound(line: string, i: nat)
    requires OccursAt(line, FileNameKey, i)
    ensures Find(line, FileNameKey).Some?
  {
    FindIsFirstOccurrence(line, FileNameKey);
  }

  /** The parts of an attachment line `dev.fileName = "v"`: FIND sees the key, CMPHEAD sees
      the bus, and the value is v. */
  lemma AttachmentLine(dev: string, v: string)
    requires OnBus(dev) && Quote !in dev && Quote !in v
    ensures Find(dev + FileNameKey + v + [Quote], FileNameKey).Some?
    ensures OnBus(dev + FileNameKey + v + [Quote])
  {
    var line := dev + FileNameKey + v + [Quote];
    assert line[|dev|..|dev| + |FileNameKey|] == FileNameKey;
    FileNameKeyFound(line, |dev|);
    assert line[..|dev|] == dev;
  }

  lemma AttachmentValue(dev: string, v: string)
    requires Quote !in dev && Quote !in v
    ensures ConfigValue(dev + FileNameKey + v + [Quote]) == Some(v)
  {
    var k := dev + ".fileName";
    assert dev + FileNameKey + v + [Quote] == k + Marker + v + [Quote] + [];
    assert Quote !in k by {
      assert forall x :: x in k ==> x in dev || x in ".fileName";
    }
    ConfigValueOfPair(k, v, []);
  }

  /** An attachment line `dev.fileName = "v"` on a bus, with quote-free device and value, offers
      its value unless that value is a removable-media image. */
  lemma AttachmentCandidate(dev: string, v: string)
    requires OnBus(dev) && Quote !in dev && Quote !in v
    ensures Candidate(dev + FileNameKey + v + [Quote]) == if IsRemovable(v) then None else Some(v)
  {
    AttachmentLine(dev, v);
    AttachmentValue(dev, v);
  }

  /** A first line attaching a hard disk `dev.fileName = "v"` chooses v, whatever follows. */
  lemma FirstAttachmentChosen(dev: string, v: string, later: seq<string>)
    requires OnBus(dev) && Quote !in dev && Quote !in v && !IsRemovable(v) && 0 < |v| < NameSize
    ensures SelectedDisk([dev + FileNameKey + v + [Quote]] + later) == Ok(v)
  {
    var line := dev + FileNameKey + v + [Quote];
    AttachmentCandidate(dev, v);
    assert Candidate([line][0]).Some?;
    SelectedDiskIgnoresLaterLines([line], later);
    assert Candidates([line]) == [Some(v)];
  }

  /** The derived path of `stem.ext`, where ext has no '.', is `stem.vmsd`. */
  lemma VmsdPathOfStem(stem: string, ext: string)
    requires '.' !in ext && |stem| + 1 + |ext| < NameSize && |stem| + 5 < NameSize
    ensures VmsdPath(stem + "." + ext) == Ok(stem + ".vmsd")
  {
    var vmx := stem + "." + ext;
    forall j | |stem| < j < |vmx|
      ensures vmx[j] != '.'
    {
      assert vmx[j] == ext[j - |stem| - 1];
      assert ext[j - |stem| - 1] in ext;
    }
    LastIndexAt(vmx, '.', |stem|);
    assert vmx[..|stem|] == stem;
  }

  /** A path with no '.' is refused as an invalid vmx path. */
  lemma VmsdPathNoDot(vmx: string)
    requires |vmx| < NameSize && forall j :: 0 <= j < |vmx| ==> vmx[j] != '.'
    ensures VmsdPath(vmx) == Err(InvalidVmxPath)
  {
    LastIndexIsLast(vmx, '.');
  }

  // ---------------------------------------------------------------- the command's code

  /** vmxpath and vmsdpath: copy the argument, cut the copy at its last '.', append `.vmsd`. */
  method DeriveVmsdPath(vmx: string) returns (r: Result<string>)
    requires IsCString(vmx)
    ensures r == VmsdPath(vmx)
  {
    if |vmx| >= NameSize {
      return Err(PathTooLong);
    }
    var path := new char[NameSize];
    CopyInto(path, 0, vmx + [NUL]);
    assert forall j :: 0 <= j < |vmx| ==> path[..][j] == vmx[j];
    CStrUpTo(path[..], 0, |vmx|);
    assert CStr(path[..], 0) == vmx;
    var dot := LastIndex(CStr(path[..], 0), '.');
    if dot.None? {
      return Err(InvalidVmxPath);
    }
    var d := dot.value;
    LastIndexIsLast(vmx, '.');
    if d + |".vmsd"| >= NameSize {
      return Err(PathTooLong);
    }
    path[d] := NUL;
    CopyInto(path, d, ".vmsd" + [NUL]);
    ghost var s := path[..];
    assert forall j :: 0 <= j < d ==> s[j] == vmx[j];
    assert forall j :: d <= j < d + 5 ==> s[j] == ".vmsd"[j - d];
    CStrUpTo(s, 0, d + 5);
    assert CStr(s, 0) == vmx[..d] + ".vmsd";
    r := Ok(CStr(path[..], 0));
  }

  /** Whether the three bytes that grub_memcmp compares, ending where the value's C string ends,
      are `iso` or `flp`. */
  predicate WindowIsImage(s: seq<char>, n: nat)
  {
    3 <= n <= |s| && (s[n - 3..n] == "iso" || s[n - 3..n] == "flp")
  }

  /** The bytes compared by the suffix test are the value's last three bytes; a shorter value
      makes the test look at the quote (or the NUL over it) just in front of the value, which
      never matches, so it agrees with IsRemovable. */
  lemma SuffixWindow(s: seq<char>, beg: nat, n: nat)
    requires 3 <= beg <= n <= |s|
    requires s[beg - 1] == Quote || s[beg - 1] == NUL
    ensures WindowIsImage(s, n) <==> IsRemovable(s[beg..n])
  {
    if n - beg < 3 {
      assert s[n - 3..n][2 - (n - beg)] == s[beg - 1];
    } else {
      assert s[n - 3..n] == s[beg..n][n - beg - 3..];
    }
  }

  /** Once a line has the key, names a bus and yields the value v, it offers v unless v is an
      image. */
  lemma CandidateOfValue(line: string, v: string)
    requires Find(line, FileNameKey).Some? && OnBus(line) && ConfigValue(line) == Some(v)
    ensures Candidate(line) == if IsRemovable(v) then None else Some(v)
  {
  }

  /** The value's C string in the buffer t that extract_config_val left of line. */
  lemma ExtractedValue(line: string, t: seq<char>, beg: nat)
    requires IsCString(line) && NulAt(line + [NUL], 0) < |line| + 1
    requires Extracted(line + [NUL], t, 0, beg)
    ensures 3 <= beg <= NulAt(t, beg) <= |t|
    ensures ConfigValue(line) == Some(t[beg..NulAt(t, beg)])
    ensures t[beg - 1] == Quote || t[beg - 1] == NUL
  {
    CStrOfLine(line, 0);
    assert CStr(line + [NUL], 0) == line;
  }

  /** The buffer t that extract_config_val left of an attachment line: the line offers the
      value's C string, unless the three bytes the suffix test compares are an image suffix. */
  lemma ExtractedCandidate(line: string, t: seq<char>, beg: nat)
    requires IsCString(line) && Find(line, FileNameKey).Some? && OnBus(line)
    requires NulAt(line + [NUL], 0) < |line| + 1
    requires Extracted(line + [NUL], t, 0, beg)
    ensures 3 <= beg <= NulAt(t, beg) <= |t|
    ensures Candidate(line) ==
      if WindowIsImage(t, NulAt(t, beg)) then None else Some(t[beg..NulAt(t, beg)])
  {
    ExtractedValue(line, t, beg);
    SuffixWindow(t, beg, NulAt(t, beg));
    CandidateOfValue(line, t[beg..NulAt(t, beg)]);
  }

  /** One pass of the disk-selection loop: the line is read into a fresh buffer, tested for
      the key and the bus, its value extracted in place and tested for an image suffix. */
  method LineCandidate(line: string) returns (c: Option<string>)
    requires IsCString(line)
    ensures c == Candidate(line)
  {
    var buf := NewLineBuffer(line);
    CStrOfLine(line, 0);
    if Find(CStr(buf[..], 0), FileNameKey).None? {
      return None;
    }
    BusByCmpHead(line);
    if !(CmpHead(CStr(buf[..], 0), "ide") == 0 || CmpHead(CStr(buf[..], 0), "sata") == 0
         || CmpHead(CStr(buf[..], 0), "scsi") == 0 || CmpHead(CStr(buf[..], 0), "nvme") == 0) {
      return None;
    }
    FileNameKeyHasValue(line);
    assert NulAt(line + [NUL], 0) == |line|;
    var filename := ExtractConfigVal(buf, 0);
    var beg := filename.value;
    ExtractedCandidate(line, buf[..], beg);
    var n := NulAt(buf[..], beg);
    if buf[n - 3..n] == "iso" || buf[n - 3..n] == "flp" {
      return None;
    }
    c := Some(buf[beg..n]);
  }

  /** The disk-selection loop over the .vmx file's lines, which breaks at the first candidate
      after copying it into curdisk, and the empty-disk check after it. */
  method SelectActiveDisk(lines: seq<string>) returns (r: Result<string>)
    requires forall i :: 0 <= i < |lines| ==> IsCString(lines[i])
    ensures r == SelectedDisk(lines)
  {
    ghost var cs := Candidates(lines);
    var curdisk: string := "";
    var i := 0;
    while i < |lines|
      invariant 0 <= i <= |lines|
      invariant curdisk == ""
      invariant FirstDisk(cs) == FirstDisk(cs[i..])
    {
      assert cs[i..][0] == cs[i] && cs[i..][1..] == cs[i + 1..];
      var filename := LineCandidate(lines[i]);
      if filename.None? {
        i := i + 1;
        continue;
      }
      if |filename.value| >= NameSize {
        return Err(DiskNameTooLong);
      }
      curdisk := filename.value;
      break;
    }
    if |curdisk| == 0 {
      return Err(NoDisk);
    }
    r := Ok(curdisk);
  }
}
