/** The snapshot table read from the .vmsd file: its records, the line-by-line step that builds
    it, and what each kind of line does to it. */
module Snapshots {
  import opened Types
  import opened CStrings
  import opened ConfigValues

  /** struct SNAPSHOT: each field is the C string held in the record's char array. */
  datatype Snapshot = Snapshot(entry: string, uid: string, diskName: string, displayName: string,
                               parent: string)

  /** A zero-initialised record. */
  const Blank := Snapshot("", "", "", "", "")

  /** The records snapshots[0..cur_index] and currentUid. */
  datatype Table = Table(records: seq<Snapshot>, currentUid: string)

  const Empty := Table([], "")

  /** The four record fields a `snapshotN.` line can set. */
  datatype Field = DiskName | Uid | DisplayName | Parent

  const GeneralHead: string := "snapshot."
  const CurrentHead: string := "snapshot.current"
  const EntryHead: string := "snapshot"

  function GetField(r: Snapshot, f: Field): string {
    match f
    case DiskName => r.diskName
    case Uid => r.uid
    case DisplayName => r.displayName
    case Parent => r.parent
  }

  /** grub_strcpy into one field of a record. */
  function SetField(r: Snapshot, f: Field, v: string): (r': Snapshot)
    ensures GetField(r', f) == v && r'.entry == r.entry
    ensures forall g :: g != f ==> GetField(r', g) == GetField(r, g)
  {
    match f
    case DiskName => r.(diskName := v)
    case Uid => r.(uid := v)
    case DisplayName => r.(displayName := v)
    case Parent => r.(parent := v)
  }

  /** The size of the char array that holds a field. */
  function FieldSize(f: Field): nat {
    match f
    case DiskName => NameSize
    case Uid => UidSize
    case DisplayName => NameSize
    case Parent => UidSize
  }

  /** The field a property names, by its head; tested in the source's order on the property
      text as it stands after its value was cut out. */
  function FieldOf(prop: string): Option<Field> {
    if "disk0.fileName = " <= prop then Some(DiskName)
    else if "uid = " <= prop then Some(Uid)
    else if "displayName = " <= prop then Some(DisplayName)
    else if "parent = " <= prop then Some(Parent)
    else None
  }

  predicate IsDigit(c: char) {
    '0' <= c <= '9'
  }

  /** A `snapshotN...` line: it starts with `snapshot` followed by a digit. */
  predicate IsEntryLine(line: string) {
    !(GeneralHead <= line) && EntryHead <= line && |line| > 8 && IsDigit(line[8])
  }

  /** The record every field line writes to. */
  function Last(t: Table): Snapshot
    requires t.records != []
  {
    t.records[|t.records| - 1]
  }

  /** A `snapshotN.` line opens a new record when its entry id is not the last record's. */
  predicate Opens(t: Table, id: string) {
    t.records == [] || id != Last(t).entry
  }

  /** cur_index++ and the copy of the entry id, when the id changed. */
  function OpenRecord(t: Table, id: string): Result<Table> {
    if !Opens(t, id) then Ok(t)
    else if |t.records| >= MaxSnapshotNum then Err(TooManySnapshots)
    else if |id| >= EntrySize then Err(FieldTooLong)
    else Ok(t.(records := t.records + [Blank.(entry := id)]))
  }

  /** Writes v into field f of the last record. */
  function SetLast(t: Table, f: Field, v: string): Table
    requires t.records != []
  {
    t.(records := t.records[|t.records| - 1 := SetField(Last(t), f, v)])
  }

  /** A `snapshotN.prop` line, once split at its first '.': open a record for the id if needed,
      then copy the property's value into the field it names. */
  function EntryStep(t: Table, id: string, prop: string): Result<Table> {
    match OpenRecord(t, id)
    case Err(e) => Err(e)
    case Ok(t1) => SetProperty(t1, prop)
  }

  /** The property part of a `snapshotN.prop` line, on the record already opened. */
  function SetProperty(t: Table, prop: string): Result<Table> {
    match ConfigValue(prop)
    case None => Ok(t)
    case Some(v) =>
      match FieldOf(AfterExtract(prop))
      case None => Ok(t)
      case Some(f) =>
        if t.records == [] then Ok(t)
        else if |v| >= FieldSize(f) then Err(FieldTooLong)
        else Ok(SetLast(t, f, v))
  }

  /** One pass of the .vmsd loop. */
  function Step(t: Table, line: string): Result<Table> {
    if GeneralHead <= line then
      if !(CurrentHead <= line) then Ok(t)
      else match ConfigValue(line)
        case None => Ok(t)
        case Some(v) => if |v| >= UidSize then Err(FieldTooLong) else Ok(t.(currentUid := v))
    else if IsEntryLine(line) then
      match IndexOf(line, '.')
      case None => Err(MissingDot)
      case Some(d) => EntryStep(t, line[..d], line[d + 1..])
    else Ok(t)
  }

  /** The loop over the .vmsd lines from table t; the first error ends it. */
  function BuildFrom(t: Table, lines: seq<string>): Result<Table>
    decreases |lines|
  {
    if lines == [] then Ok(t)
    else match Step(t, lines[0])
      case Err(e) => Err(e)
      case Ok(t1) => BuildFrom(t1, lines[1..])
  }

  function BuildTable(lines: seq<string>): Result<Table> {
    BuildFrom(Empty, lines)
  }

  /** Every field fits its char array with its terminator, and at most MAX_SNAPSHOT_NUM
      records exist. */
  predicate RecordFits(r: Snapshot) {
    && |r.entry| < EntrySize && |r.uid| < UidSize && |r.diskName| < NameSize
    && |r.displayName| < NameSize && |r.parent| < UidSize
    && IsCString(r.entry) && IsCString(r.uid) && IsCString(r.diskName)
    && IsCString(r.displayName) && IsCString(r.parent)
  }

  predicate Fits(t: Table) {
    && |t.records| <= MaxSnapshotNum
    && (forall i :: 0 <= i < |t.records| ==> RecordFits(t.records[i]))
    && |t.currentUid| < UidSize && IsCString(t.currentUid)
  }

  // ---------------------------------------------------------------- properties

  /** A `snapshotN.` line is split at its first '.' into entry id and property. */
  lemma EntryLineStep(t: Table, line: string, d: nat)
    requires IsEntryLine(line) && IndexOf(line, '.') == Some(d)
    ensures Step(t, line) == EntryStep(t, line[..d], line[d + 1..])
  {
  }

  /** Whether a `snapshotN.` line opens a record decides the record count: one more exactly
      when the entry id differs from the last record's, and the last record then carries the
      id. */
  lemma OpenRecordCount(t: Table, id: string)
    requires OpenRecord(t, id).Ok?
    ensures var t1 := OpenRecord(t, id).value;
      && |t1.records| == |t.records| + (if Opens(t, id) then 1 else 0)
      && t1.records[..|t.records|] == t.records
      && Last(t1).entry == id
      && t1.currentUid == t.currentUid
  {
    if Opens(t, id) {
      assert (t.records + [Blank.(entry := id)])[..|t.records|] == t.records;
    }
  }

  /** The field step after the record is open: it touches the last record only. */
  lemma EntryStepShape(t: Table, id: string, prop: string)
    requires EntryStep(t, id, prop).Ok?
    ensures OpenRecord(t, id).Ok?
    ensures var t1 := OpenRecord(t, id).value;
      var t' := EntryStep(t, id, prop).value;
      && |t'.records| == |t1.records| > 0
      && (forall i :: 0 <= i < |t1.records| - 1 ==> t'.records[i] == t1.records[i])
      && Last(t').entry == Last(t1).entry
      && t'.currentUid == t1.currentUid
  {
    OpenRecordCount(t, id);
  }

  /** The record count after a `snapshotN.` line grows by one exactly when its entry id is not
      the last record's id; the records before the last one are untouched. */
  lemma StepCount(t: Table, line: string, d: nat)
    requires IsEntryLine(line) && IndexOf(line, '.') == Some(d) && Step(t, line).Ok?
    ensures var t' := Step(t, line).value;
      && |t'.records| == |t.records| + (if Opens(t, line[..d]) then 1 else 0)
      && (forall i :: 0 <= i < |t'.records| - 1 ==> t'.records[i] == t.records[i])
      && Last(t').entry == line[..d]
      && t'.currentUid == t.currentUid
  {
    EntryLineStep(t, line, d);
    EntryStepShape(t, line[..d], line[d + 1..]);
    OpenRecordCount(t, line[..d]);
    var t1 := OpenRecord(t, line[..d]).value;
    assert forall i :: 0 <= i < |t1.records| - 1 ==> t1.records[i] == t1.records[..|t.records|][i];
  }

  /** A field line changes only the field it names, in the last record: the other records,
      the other fields and currentUid are as after the record was opened. */
  lemma StepFieldOnly(t: Table, line: string, d: nat, v: string, f: Field)
    requires IsEntryLine(line) && IndexOf(line, '.') == Some(d) && Step(t, line).Ok?
    requires ConfigValue(line[d + 1..]) == Some(v) && FieldOf(AfterExtract(line[d + 1..])) == Some(f)
    ensures OpenRecord(t, line[..d]).Ok?
    ensures var t1 := OpenRecord(t, line[..d]).value;
      var t' := Step(t, line).value;
      && GetField(Last(t'), f) == v
      && (forall g :: g != f ==> GetField(Last(t'), g) == GetField(Last(t1), g))
  {
    EntryLineStep(t, line, d);
    EntryStepShape(t, line[..d], line[d + 1..]);
  }

  /** A property the four heads do not name, or one without a value, only opens the record. */
  lemma StepUnknownField(t: Table, line: string, d: nat)
    requires IsEntryLine(line) && IndexOf(line, '.') == Some(d)
    requires ConfigValue(line[d + 1..]).None? || FieldOf(AfterExtract(line[d + 1..])).None?
    ensures Step(t, line) == OpenRecord(t, line[..d])
  {
    EntryLineStep(t, line, d);
  }

  /** Lines that are neither `snapshot.current...` nor `snapshotN...` change nothing. */
  lemma StepIgnores(t: Table, line: string)
    requires !(EntryHead <= line) || (GeneralHead <= line && !(CurrentHead <= line))
             || (!(GeneralHead <= line) && (|line| <= 8 || !IsDigit(line[8])))
    ensures Step(t, line) == Ok(t)
  {
    if GeneralHead <= line {
      assert EntryHead <= line by {
        assert GeneralHead[..8] == EntryHead;
      }
    }
  }

  /** Opening a record keeps the table within its arrays. */
  lemma OpenRecordKeepsFits(t: Table, id: string)
    requires Fits(t) && IsCString(id) && OpenRecord(t, id).Ok?
    ensures Fits(OpenRecord(t, id).value)
  {
    var t1 := OpenRecord(t, id).value;
    OpenRecordCount(t, id);
    if Opens(t, id) {
      assert forall i :: 0 <= i < |t.records| ==> t1.records[i] == t.records[i];
    }
  }

  /** Writing a value that fits into a field of the last record keeps the table within its
      arrays. */
  lemma SetLastKeepsFits(t: Table, f: Field, v: string)
    requires Fits(t) && t.records != [] && IsCString(v) && |v| < FieldSize(f)
    ensures Fits(SetLast(t, f, v))
  {
    var r := SetField(Last(t), f, v);
    assert RecordFits(r) by {
      assert forall g :: g != f ==> GetField(r, g) == GetField(Last(t), g);
      assert RecordFits(Last(t));
    }
  }

  lemma EntryStepKeepsFits(t: Table, id: string, prop: string)
    requires Fits(t) && IsCString(id) && IsCString(prop) && EntryStep(t, id, prop).Ok?
    ensures Fits(EntryStep(t, id, prop).value)
  {
    OpenRecordKeepsFits(t, id);
    var t1 := OpenRecord(t, id).value;
    if ConfigValue(prop).Some? && FieldOf(AfterExtract(prop)).Some? && t1.records != [] {
      ValueIsCString(prop);
      SetLastKeepsFits(t1, FieldOf(AfterExtract(prop)).value, ConfigValue(prop).value);
    }
  }

  /** Each step keeps every field within its char array. */
  lemma StepKeepsFits(t: Table, line: string)
    requires Fits(t) && IsCString(line) && Step(t, line).Ok?
    ensures Fits(Step(t, line).value)
  {
    if GeneralHead <= line {
      if CurrentHead <= line && ConfigValue(line).Some? {
        ValueIsCString(line);
      }
    } else if IsEntryLine(line) {
      var d := IndexOf(line, '.').value;
      EntryLineStep(t, line, d);
      SliceIsCString(line, 0, d);
      SliceIsCString(line, d + 1, |line|);
      assert line[d + 1..] == line[d + 1..|line|];
      EntryStepKeepsFits(t, line[..d], line[d + 1..]);
    }
  }

  /** Building the table keeps every field within its char array. */
  lemma {:induction false} BuildKeepsFits(t: Table, lines: seq<string>)
    requires Fits(t) && (forall i :: 0 <= i < |lines| ==> IsCString(lines[i]))
    requires BuildFrom(t, lines).Ok?
    ensures Fits(BuildFrom(t, lines).value)
    decreases |lines|
  {
    if lines != [] {
      StepKeepsFits(t, lines[0]);
      BuildKeepsFits(Step(t, lines[0]).value, lines[1..]);
    }
  }

  /** Without `snapshotN...` lines no record is ever opened. */
  lemma {:induction false} NoEntryLinesNoRecords(t: Table, lines: seq<string>)
    requires forall i :: 0 <= i < |lines| ==> !IsEntryLine(lines[i])
    requires BuildFrom(t, lines).Ok?
    ensures BuildFrom(t, lines).value.records == t.records
    decreases |lines|
  {
    if lines != [] {
      match Step(t, lines[0])
      case Ok(t1) =>
        assert t1.records == t.records;
        NoEntryLinesNoRecords(t1, lines[1..]);
    }
  }

  // ---------------------------------------------------------------- snapshot.current

  /** The string the source copies into currentUid: it extracts the value a second time from
      the line the first extraction already cut. None stands for the NULL it would then pass
      to grub_strcpy. */
  function CurrentUidAsWritten(line: string): (r: Option<string>)
    requires ConfigValue(line).Some?
    ensures r.Some? ==> r.value <= ConfigValue(line).value
  {
    ReextractIsPrefix(line);
    ConfigValue(AfterExtract(line))
  }

  /** `snapshot.current = "v` without its closing quote: the first extraction succeeds, the
      second one finds nothing, and the source copies from NULL. */
  lemma CurrentUnclosedReadsNull(v: string)
    requires Quote !in v
    ensures ConfigValue(CurrentHead + Marker + v) == Some(v)
    ensures CurrentUidAsWritten(CurrentHead + Marker + v) == None
  {
    ReextractUnclosed(CurrentHead, v);
  }

  /** With its closing quote and a quote-free value, the second extraction agrees with the
      first. */
  lemma CurrentClosedAgrees(v: string, tail: string)
    requires Quote !in v && Quote !in tail
    ensures ConfigValue(CurrentHead + Marker + v + [Quote] + tail) == Some(v)
    ensures CurrentUidAsWritten(CurrentHead + Marker + v + [Quote] + tail) == Some(v)
  {
    ConfigValueOfPair(CurrentHead, v, tail);
    ReextractPair(CurrentHead, v, tail);
  }

  /** A `snapshot.current` line whose value fits sets currentUid to that value. */
  lemma CurrentLineStep(t: Table, line: string, v: string)
    requires CurrentHead <= line && ConfigValue(line) == Some(v) && |v| < UidSize
    ensures Step(t, line) == Ok(t.(currentUid := v))
  {
    assert GeneralHead <= line by {
      assert line[..|GeneralHead|] == line[..|CurrentHead|][..|GeneralHead|];
    }
  }

  lemma CurrentHeadPrefix(rest: string)
    ensures CurrentHead <= CurrentHead + rest
  {
    assert (CurrentHead + rest)[..|CurrentHead|] == CurrentHead;
  }

  lemma UnclosedCurrentStep(t: Table, v: string)
    requires Quote !in v && |v| < UidSize
    ensures Step(t, CurrentHead + Marker + v) == Ok(t.(currentUid := v))
  {
    ConfigValueOfUnclosedPair(CurrentHead, v);
    assert CurrentHead + Marker + v == CurrentHead + (Marker + v);
    CurrentHeadPrefix(Marker + v);
    CurrentLineStep(t, CurrentHead + Marker + v, v);
  }

  lemma ClosedCurrentStep(t: Table, v: string)
    requires Quote !in v && |v| < UidSize
    ensures Step(t, CurrentHead + Marker + v + [Quote]) == Ok(t.(currentUid := v))
  {
    var b := CurrentHead + Marker + v + [Quote];
    ConfigValueOfPair(CurrentHead, v, []);
    assert b + [] == b;
    assert b == CurrentHead + (Marker + v + [Quote]);
    CurrentHeadPrefix(Marker + v + [Quote]);
    CurrentLineStep(t, b, v);
  }

  /** The corrected step keeps the first extraction's value, closed or not. */
  lemma StepSetsCurrentUid(t: Table, v: string)
    requires Quote !in v && |v| < UidSize
    ensures Step(t, CurrentHead + Marker + v) == Ok(t.(currentUid := v))
    ensures Step(t, CurrentHead + Marker + v + [Quote]) == Ok(t.(currentUid := v))
  {
    UnclosedCurrentStep(t, v);
    ClosedCurrentStep(t, v);
  }
}
