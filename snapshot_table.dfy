/** The `snapshots[MAX_SNAPSHOT_NUM]` array with `cur_index` and `currentUid`, filled line by
    line from the .vmsd file, searched by uid, and walked to build the disk list. */
module SnapshotTables {
  import opened Types
  import opened CStrings
  import opened ConfigValues
  import opened Snapshots
  import opened Chain

  /** The buffer of a `snapshotN.prop` line once grub_strchr's '.' at d became a NUL: the
      entry id and the property are the two C strings it holds. */
  lemma SplitAtDot(line: string, d: nat)
    requires IsCString(line) && d < |line|
    ensures var s := (line + [NUL])[d := NUL];
      && CStr(s, 0) == line[..d] && NulAt(s, d + 1) == |line| && CStr(s, d + 1) == line[d + 1..]
  {
    var s := (line + [NUL])[d := NUL];
    assert forall j :: 0 <= j < |line| && j != d ==> s[j] == line[j];
    CStrUpTo(s, 0, d);
    CStrUpTo(s, d + 1, |line|);
  }

  /** The buffer of a C string line ends at the line's own end. */
  lemma LineEnd(line: string)
    requires IsCString(line)
    ensures NulAt(line + [NUL], 0) == |line| && CStr(line + [NUL], 0) == line
  {
    var s := line + [NUL];
    assert forall j :: 0 <= j < |line| ==> s[j] == line[j];
    CStrUpTo(s, 0, |line|);
  }

  /** The value's C string that extract_config_val leaves in the buffer of a C string line is
      the line's value, and a C string. */
  lemma ExtractedLineValue(line: string, t: seq<char>, beg: nat)
    requires IsCString(line) && NulAt(line + [NUL], 0) == |line|
    requires Extracted(line + [NUL], t, 0, beg)
    ensures ConfigValue(line) == Some(CStr(t, beg)) && IsCString(CStr(t, beg))
  {
    LineEnd(line);
    ValueIsCString(line);
  }

  /** A buffer whose tail from p is a C string and its NUL holds that C string at p. */
  lemma TerminatedTail(s: seq<char>, p: nat, str: string)
    requires p <= |s| && s[p..] == str + [NUL] && IsCString(str)
    ensures CStr(s, p) == str
  {
    assert forall j :: p <= j < p + |str| ==> s[j] == s[p..][j - p];
    CStrUpTo(s, p, p + |str|);
  }

  /** The CMPHEAD chain that picks the field a property line sets. */
  method PropertyField(prop: string) returns (f: Option<Field>)
    requires IsCString(prop)
    ensures f == FieldOf(prop)
  {
    CmpHeadIsPrefix(prop, "disk0.fileName = ");
    CmpHeadIsPrefix(prop, "uid = ");
    CmpHeadIsPrefix(prop, "displayName = ");
    CmpHeadIsPrefix(prop, "parent = ");
    if CmpHead(prop, "disk0.fileName = ") == 0 {
      f := Some(DiskName);
    } else if CmpHead(prop, "uid = ") == 0 {
      f := Some(Uid);
    } else if CmpHead(prop, "displayName = ") == 0 {
      f := Some(DisplayName);
    } else if CmpHead(prop, "parent = ") == 0 {
      f := Some(Parent);
    } else {
      f := None;
    }
  }

  class SnapshotTable {
    /** snapshots[0..cur_index] are in use; the rest are still zeroed. */
    const snapshots: array<Snapshot>
    var curIndex: int
    var currentUid: string

    ghost function View(): Table
      reads this, snapshots
      requires -1 <= curIndex < snapshots.Length
    {
      Table(snapshots[..curIndex + 1], currentUid)
    }

    ghost predicate Valid()
      reads this, snapshots
    {
      && snapshots.Length == MaxSnapshotNum
      && -1 <= curIndex < MaxSnapshotNum
      && (forall j :: curIndex < j < MaxSnapshotNum ==> snapshots[j] == Blank)
      && Fits(View())
    }

    /** `snapshots[MAX_SNAPSHOT_NUM] = { 0 }`, `cur_index = -1`, `currentUid[8] = { 0 }`. */
    constructor()
      ensures Valid() && View() == Empty && fresh(snapshots)
    {
      snapshots := new Snapshot[MaxSnapshotNum](_ => Blank);
      curIndex := -1;
      currentUid := "";
    }

    /** cur_index++ and the copy of the entry id when the id is not the current record's. */
    method OpenEntry(id: string) returns (err: Option<Error>)
      requires Valid() && IsCString(id)
      modifies this, snapshots
      ensures err.None? ==> Valid() && curIndex >= 0 && OpenRecord(old(View()), id) == Ok(View())
      ensures err.Some? ==> OpenRecord(old(View()), id) == Err(err.value)
    {
      ghost var t := View();
      if curIndex == -1 || id != snapshots[curIndex].entry {
        if curIndex + 1 >= MaxSnapshotNum {
          return Some(TooManySnapshots);
        }
        if |id| >= EntrySize {
          return Some(FieldTooLong);
        }
        curIndex := curIndex + 1;
        snapshots[curIndex] := snapshots[curIndex].(entry := id);
        assert View().records == t.records + [Blank.(entry := id)];
        OpenRecordKeepsFits(t, id);
      }
      err := None;
    }

    /** The grub_strcpy of a value into a field of snapshots[cur_index]. */
    method SetCurrentField(f: Field, v: string) returns (err: Option<Error>)
      requires Valid() && curIndex >= 0 && IsCString(v)
      modifies snapshots
      ensures Valid()
      ensures |v| >= FieldSize(f) ==> err == Some(FieldTooLong) && View() == old(View())
      ensures |v| < FieldSize(f) ==> err.None? && View() == SetLast(old(View()), f, v)
    {
      if |v| >= FieldSize(f) {
        return Some(FieldTooLong);
      }
      ghost var t := View();
      snapshots[curIndex] := SetField(snapshots[curIndex], f, v);
      assert View().records == t.records[|t.records| - 1 := SetField(Last(t), f, v)];
      SetLastKeepsFits(t, f, v);
      err := None;
    }

    /** A `snapshot.` line: only `snapshot.current` matters, whose value becomes currentUid. */
    method GeneralLine(buf: array<char>, ghost line: string) returns (err: Option<Error>)
      requires Valid() && IsCString(line) && buf[..] == line + [NUL] && GeneralHead <= line
      modifies this, buf
      ensures err.None? ==> Valid() && Step(old(View()), line) == Ok(View())
      ensures err.Some? ==> Step(old(View()), line) == Err(err.value)
    {
      ghost var t := View();
      LineEnd(line);
      CmpHeadIsPrefix(line, CurrentHead);
      if CmpHead(CStr(buf[..], 0), CurrentHead) != 0 {
        StepIgnores(t, line);
        return None;
      }
      var ret := ExtractConfigVal(buf, 0);
      if ret.None? {
        assert Step(t, line) == Ok(t);
        return None;
      }
      var v := CStr(buf[..], ret.value);
      ExtractedLineValue(line, buf[..], ret.value);
      if |v| >= UidSize {
        return Some(FieldTooLong);
      }
      CurrentLineStep(t, line, v);
      currentUid := v;
      assert View() == t.(currentUid := v);
      err := None;
    }

    /** A `snapshotN.prop` line: open the record for `snapshotN` if needed, extract the
        property's value and copy it into the field the property names. */
    method EntryLine(buf: array<char>, ghost line: string) returns (err: Option<Error>)
      requires Valid() && IsCString(line) && buf[..] == line + [NUL] && IsEntryLine(line)
      modifies this, snapshots, buf
      ensures err.None? ==> Valid() && Step(old(View()), line) == Ok(View())
      ensures err.Some? ==> Step(old(View()), line) == Err(err.value)
    {
      ghost var t := View();
      LineEnd(line);
      var d := IndexOf(CStr(buf[..], 0), '.');
      if d.None? {
        return Some(MissingDot);
      }
      var dot := d.value;
      EntryLineStep(t, line, dot);
      buf[dot] := NUL;
      SplitAtDot(line, dot);
      SliceIsCString(line, 0, dot);
      var id := CStr(buf[..], 0);
      err := OpenEntry(id);
      if err.Some? {
        return;
      }
      SliceIsCString(line, dot + 1, |line|);
      assert line[dot + 1..] == line[dot + 1..|line|];
      err := PropertyLine(buf, dot + 1, line[dot + 1..]);
    }

    /** The property part of a `snapshotN.prop` line, whose C string starts at p of buf:
        extract its value and copy it into the field the cut property names. */
    method PropertyLine(buf: array<char>, p: nat, ghost prop: string) returns (err: Option<Error>)
      requires Valid() && curIndex >= 0 && IsCString(prop)
      requires p < buf.Length && NulAt(buf[..], p) < buf.Length && CStr(buf[..], p) == prop
      modifies snapshots, buf
      ensures err.None? ==> Valid() && SetProperty(old(View()), prop) == Ok(View())
      ensures err.Some? ==> SetProperty(old(View()), prop) == Err(err.value)
    {
      var ret := ExtractConfigVal(buf, p);
      if ret.None? {
        return None;
      }
      ValueIsCString(prop);
      var f := PropertyField(CStr(buf[..], p));
      if f.None? {
        return None;
      }
      err := SetCurrentField(f.value, CStr(buf[..], ret.value));
    }

    /** One pass of the .vmsd loop body for one line. */
    method AddLine(line: string) returns (err: Option<Error>)
      requires Valid() && IsCString(line)
      modifies this, snapshots
      ensures err.None? ==> Valid() && Step(old(View()), line) == Ok(View())
      ensures err.Some? ==> Step(old(View()), line) == Err(err.value)
    {
      var buf := NewLineBuffer(line);
      LineEnd(line);
      CmpHeadIsPrefix(line, GeneralHead);
      CmpHeadIsPrefix(line, EntryHead);
      if CmpHead(CStr(buf[..], 0), GeneralHead) == 0 {
        err := GeneralLine(buf, line);
      } else if CmpHead(CStr(buf[..], 0), EntryHead) == 0 && IsDigit(buf[8]) {
        err := EntryLine(buf, line);
      } else {
        err := None;
      }
    }

    /** The whole .vmsd loop; the first error ends it. */
    method Load(lines: seq<string>) returns (err: Option<Error>)
      requires Valid() && forall i :: 0 <= i < |lines| ==> IsCString(lines[i])
      modifies this, snapshots
      ensures err.None? ==> Valid() && BuildFrom(old(View()), lines) == Ok(View())
      ensures err.Some? ==> BuildFrom(old(View()), lines) == Err(err.value)
    {
      var i := 0;
      while i < |lines|
        invariant 0 <= i <= |lines| && Valid()
        invariant BuildFrom(old(View()), lines) == BuildFrom(View(), lines[i..])
      {
        assert lines[i..][0] == lines[i] && lines[i..][1..] == lines[i + 1..];
        err := AddLine(lines[i]);
        if err.Some? {
          return;
        }
        i := i + 1;
      }
      err := None;
    }

    /** The search `for (i = 0; i <= cur_index; i++)` for the record whose uid is cur; i ends
        at cur_index + 1 when there is none. */
    method FindUid(cur: string) returns (i: int)
      requires Valid()
      ensures UidIndex(View().records, cur).Some? ==> i == UidIndex(View().records, cur).value
      ensures UidIndex(View().records, cur).None? ==> i == curIndex + 1
    {
      ghost var records := View().records;
      i := 0;
      while i <= curIndex
        invariant 0 <= i <= curIndex + 1
        invariant UidIndex(records, cur) == UidIndexFrom(records, cur, i)
      {
        if snapshots[i].uid == cur {
          return;
        }
        i := i + 1;
      }
    }

    /** One hop of the chain walk: disksend moves back over the disk name and a space. */
    static method Prepend(disks: array<char>, pos: nat, name: string, ghost suffix: string)
      requires |name| + 1 <= pos <= disks.Length && disks[pos..] == suffix
      modifies disks
      ensures disks[pos - |name| - 1..] == name + " " + suffix
      ensures disks[..pos - |name| - 1] == old(disks[..pos - |name| - 1])
    {
      var at := pos - |name| - 1;
      CopyInto(disks, at, name);
      disks[at + |name|] := ' ';
      assert disks[at..] == name + " " + suffix by {
        assert forall j :: at <= j < disks.Length ==> disks[j] == (name + " " + suffix)[j - at];
      }
    }

    /** The chain walk: active ends the disks buffer, every snapshot from currentUid up to the
        root is prepended with a space, and the C string at disksend is returned. */
    method ResolveChain(active: string) returns (r: Result<string>)
      requires Valid() && IsCString(active) && |active| < NameSize
      ensures r == Walk(View().records, currentUid, active)
    {
      ghost var records := View().records;
      var disks := new char[MaxRetBuf];
      var pos := MaxRetBuf - (|active| + 1);
      CopyInto(disks, pos, active + [NUL]);
      ghost var suffix := active;
      var cur := currentUid;
      assert disks[pos..] == suffix + [NUL];
      while true
        invariant 0 <= pos && pos + |suffix| + 1 == MaxRetBuf && IsCString(suffix)
        invariant disks[pos..] == suffix + [NUL]
        invariant Walk(records, currentUid, active) == Walk(records, cur, suffix)
        decreases pos
      {
        var i := FindUid(cur);
        if i == curIndex + 1 {
          return Err(NotInChain);
        }
        var name := snapshots[i].diskName;
        if pos < |name| + 1 {
          return Err(ChainTooLong);
        }
        assert RecordFits(records[i]);
        WalkHop(records, cur, suffix);
        Prepend(disks, pos, name, suffix + [NUL]);
        pos := pos - |name| - 1;
        suffix := name + " " + suffix;
        if snapshots[i].parent == "" {
          assert Walk(records, currentUid, active) == Ok(suffix);
          break;
        }
        cur := snapshots[i].parent;
      }
      TerminatedTail(disks[..], pos, suffix);
      r := Ok(CStr(disks[..], pos));
    }
  }
}
