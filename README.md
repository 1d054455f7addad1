# vmsnap: a verified model of GRUB's VMware snapshot-chain command

`vmsnap VMXPATH` is a GRUB command in `vmware-snapshot.c`. It first derives the sibling
`.vmsd` path by cutting the `.vmx` path at its last `.` and appending `.vmsd`; a path
without a `.` fails there, before the `.vmx` file is opened. It then reads the VMware
`.vmx` descriptor and chooses the active virtual disk: the first `ide`/`sata`/`scsi`/`nvme`
attachment whose `.fileName` value does not end in `iso` or `flp`. If the `.vmsd` file exists, the command reads its snapshot records into a fixed
`snapshots[20]` table. It then walks the `parent` links from `snapshot.current`,
filling a 1024-byte buffer from its tail. The result is a space-separated list of disks:
the root snapshot's disk first and the active disk last.

The model covers these parts of the command:

- **String helpers** (`cstrings.dfy`, `config_values.dfy`).
  - `FIND` is modelled over C strings, and `CMPHEAD` as `grub_strncmp` over the head's length.
  - `extract_config_val` is modelled in place on an `array<char>` line buffer: it returns
    the index of the value and writes a NUL over the line's last quote.
- **The `.vmx` side** (`vmx.dfy`).
  - The `.vmsd` path derivation works on a 256-byte buffer.
  - The disk-selection loop copies each line into a fresh buffer, as `grub_file_getline`
    does, and runs the source's tests on it.
- **The `.vmsd` side** (`snapshots.dfy`, `snapshot_table.dfy`).
  - The specification is `Step`/`BuildFrom` on a value `Table(records, currentUid)`.
  - The code is a class `SnapshotTable`, holding the 20-element `snapshots` array, `curIndex`
    and `currentUid`. Its methods update these in place, line by line.
- **The chain walk** (`chain.dfy`, `SnapshotTable.ResolveChain`).
  - The specification is the recursive function `Walk`.
  - It is checked against an independent description: a chain of record indices from
    `currentUid` to a root (`IsChain`), whose disk names, root first, precede the active disk
    (`Spelled`).
  - The code fills `disks[0x400]` backwards with a moving `pos` (`disksend`).
- **The command** (`vmsnap.dfy`).
  - `Command` is the specification and `VmSnap` the code; `VmSnap` is proved equal to
    `Command`.
  - The file system is a map from path to lines. A path missing from the map is a failed open.

Where the source would overrun a fixed buffer or dereference NULL, the model returns an
explicit error instead, with one exception: the NULL that line 192 can pass to
`grub_strcpy`, which the model replaces by the intended copy (see "## Findings"). No such
case is a precondition. The hazards and what the model does with them are:

| hazard in the source | model |
|---|---|
| `cur_index++` past `MAX_SNAPSHOT_NUM` (line 202) | `TooManySnapshots` |
| `strcpy` into `entry[20]`, `uid[8]`, `parent[8]`, `diskname[256]`, `displayname[256]`, `currentUid[8]` (lines 192, 203, 216-222) | `FieldTooLong` |
| `strcpy` into `vmxpath[256]` / `vmsdpath[256]` (lines 104, 108, 114) | `PathTooLong` |
| `strcpy` into `curdisk[256]` (line 151) | `DiskNameTooLong` |
| `pDot` NULL (lines 199-200) | `MissingDot` |
| `disksend` moving in front of `disks` (line 265) | `ChainTooLong` |
| `grub_strcpy(currentUid, NULL)` for `snapshot.current = "v` without its closing quote (line 192) | no error: the model copies the value the first `extract_config_val` found, as intended (see "## Findings" and "## Left out"); `Snapshots.CurrentUidAsWritten` keeps the code as written |
| a parent cycle (lines 252-272) | every hop moves `disksend` back at least one byte, so a cycle ends in `ChainTooLong` (`Chain.CycleTooLong`); no fuel is needed |
| a value shorter than three bytes in the suffix test (line 147) | not an error. The three bytes compared still lie inside the line buffer: they include the quote, or the NUL over it, just before the value. So the test never matches, and `Vmx.SuffixWindow` proves it equals the intended suffix test |

Three behaviours of the code that the model keeps as they are:

- `k = "v` with no closing quote yields `v`, the rest of the line (lines 67-71): the last
  quote is then the marker's own, so `*end = 0` lands in front of the value.
- An empty `.fileName` value on a bus line ends the scan and fails with "no disk": the loop
  breaks on it (lines 151-152), and the `strlen(curdisk)` check at line 155 then fails.
- `grub_strrchr` at line 109 looks for the last `.` anywhere in the path, even one inside a
  directory name.

## Model

| member | source | states |
|---|---|---|
| CStrings.FindIsFirstOccurrence | vmware-snapshot.c:56-59 | FIND returns the index just after the first occurrence of the pattern, and nothing exactly when the pattern does not occur |
| CStrings.FindAt | vmware-snapshot.c:56-59 | an occurrence with none before it is what FIND returns |
| CStrings.CmpHeadIsPrefix | vmware-snapshot.c:61 | CMPHEAD is 0 exactly when the head is a prefix of the line |
| CStrings.StrNCmpIsPrefix | vmware-snapshot.c:61 | grub_strncmp over the head's length is 0 exactly when the head is a prefix |
| CStrings.LastIndexIsLast | vmware-snapshot.c:67 | grub_strrchr finds the last occurrence of the character, and none exactly when it is absent |
| CStrings.IndexOfIsFirst | vmware-snapshot.c:199 | grub_strchr finds the first occurrence of the character, and none exactly when it is absent |
| CStrings.NulAtIsFirstNul | vmware-snapshot.c:114 | grub_strlen from an index stops at the first NUL |
| CStrings.CopyInto | vmware-snapshot.c:266 | memcpy writes the source bytes at the index and leaves every other byte unchanged |
| ConfigValues.ExtractConfigVal | vmware-snapshot.c:63-72 | returns a value exactly when the line has a value, leaves the buffer unchanged when it does not, and otherwise writes a NUL over the line's last quote and returns the start of the value's C string |
| ConfigValues.ConfigValueFound | vmware-snapshot.c:63-66 | a value is found exactly when the line contains ` = "` |
| ConfigValues.ConfigValueBetween | vmware-snapshot.c:63-72 | the value is exactly the bytes between the first ` = "` and the line's last quote, and the line is cut at that quote |
| ConfigValues.ConfigValueUnclosed | vmware-snapshot.c:63-72 | with no quote after the marker, the value is the rest of the line and the line is cut at the marker's quote |
| ConfigValues.NoQuoteNoValue | vmware-snapshot.c:64-66 | a line with no quote has no value and is left as it was |
| ConfigValues.ConfigValueOfPair | vmware-snapshot.c:63-72 | for `k = "v"` followed by quote-free text, with k and v quote-free, the value is v and the line becomes `k = "v` |
| ConfigValues.ConfigValueOfUnclosedPair | vmware-snapshot.c:63-72 | for `k = "v` with no closing quote, the value is v and the line becomes `k = ` |
| ConfigValues.ReextractPair | vmware-snapshot.c:190-192 | extracting again from the cut line of `k = "v"` gives v again |
| ConfigValues.ReextractUnclosed | vmware-snapshot.c:190-192 | extracting again from the cut line of `k = "v` finds no value |
| ConfigValues.ReextractIsPrefix | vmware-snapshot.c:190-192 | extracting again from the cut line gives a prefix of the first value, or no value at all |
| ConfigValues.ValueIsCString | vmware-snapshot.c:63-72 | the value of a NUL-free line is NUL-free |
| ConfigValues.CutBuffer | vmware-snapshot.c:70-71 | after the NUL write, the line's C string ends at the cut, and the value's C string runs to the cut, or to the line's end when the cut is in front of it |
| Vmx.DeriveVmsdPath | vmware-snapshot.c:104-115 | the 256-byte buffer code returns VmsdPath: the path up to its last '.' followed by `.vmsd`, InvalidVmxPath without a '.', PathTooLong when a buffer would overflow |
| Vmx.VmsdPathOfStem | vmware-snapshot.c:104-115 | the derived path of `stem.ext`, where ext has no '.', is `stem.vmsd` |
| Vmx.VmsdPathNoDot | vmware-snapshot.c:109-111 | a path without '.' is refused as an invalid vmx path |
| Vmx.BusByCmpHead | vmware-snapshot.c:143 | the four CMPHEAD tests together say the line starts with ide, sata, scsi or nvme |
| Vmx.FileNameKeyHasValue | vmware-snapshot.c:140-146 | a line holding `.fileName = "` always yields a value |
| Vmx.SuffixWindow | vmware-snapshot.c:147-148 | the three bytes grub_memcmp compares are `iso` or `flp` exactly when the value ends in `iso` or `flp`, even for a value shorter than three bytes |
| Vmx.ExtractedCandidate | vmware-snapshot.c:140-150 | what one loop pass computes on the buffer is the line's candidate: its value, unless the line lacks the key or the bus or the value is an image |
| Vmx.AttachmentCandidate | vmware-snapshot.c:140-150 | a bus line `dev.fileName = "v"` offers v unless v ends in `iso` or `flp` (case-sensitive) |
| Vmx.LineCandidate | vmware-snapshot.c:137-150 | one loop pass on a fresh line buffer returns exactly the line's candidate |
| Vmx.SelectActiveDisk | vmware-snapshot.c:135-156 | the loop returns SelectedDisk: the first candidate if it fits curdisk and is non-empty, NoDisk when no line offers one |
| Vmx.FirstDiskIsFirstOffer | vmware-snapshot.c:137-156 | the chosen disk is v exactly when v is the first candidate and 0 < \|v\| < 256 |
| Vmx.NoOfferNoDisk | vmware-snapshot.c:155-156 | with no candidate line the command fails with "no disk" |
| Vmx.SelectedDiskIgnoresLaterLines | vmware-snapshot.c:151-152 | once a candidate line has been met, no later line changes the result |
| Vmx.FirstAttachmentChosen | vmware-snapshot.c:137-153 | a first line `dev.fileName = "v"` on a bus, with v not an image, selects v whatever follows; with `ide0:0` and `disk.vmdk` followed by `ide1:0.fileName = "media.iso"`, the result is `disk.vmdk` |
| Snapshots.SetField | vmware-snapshot.c:215-222 | the strcpy into one field sets that field and leaves the others and the entry id unchanged |
| Snapshots.OpenRecordCount | vmware-snapshot.c:201-206 | opening adds one record exactly when the id differs from the last record's, keeps the earlier records, and the last record carries the id |
| Snapshots.StepCount | vmware-snapshot.c:197-225 | after a `snapshotN.` line the record count grows by one exactly when its entry id differs from the last record's id; every record but the last is unchanged and currentUid is kept |
| Snapshots.StepFieldOnly | vmware-snapshot.c:211-222 | a field line sets the named field of the last record to the value and changes no other field of it |
| Snapshots.StepUnknownField | vmware-snapshot.c:211-225 | a property without a value, or not one of the four names, only opens the record |
| Snapshots.StepIgnores | vmware-snapshot.c:186-228 | non-`current` `snapshot.` lines and lines not starting with `snapshot` and a digit change nothing |
| Snapshots.StepKeepsFits | vmware-snapshot.c:176-229 | each line keeps at most 20 records, every field inside its char array with its NUL, and currentUid inside its 8 bytes |
| Snapshots.BuildKeepsFits | vmware-snapshot.c:185-229 | the whole loop keeps the table within its arrays |
| Snapshots.NoEntryLinesNoRecords | vmware-snapshot.c:197-206 | without `snapshotN` lines no record is ever opened |
| Snapshots.CurrentLineStep | vmware-snapshot.c:186-195 | a `snapshot.current` line whose value fits sets currentUid to the value |
| Snapshots.StepSetsCurrentUid | vmware-snapshot.c:190-192 | `snapshot.current = "v` and `snapshot.current = "v"` both set currentUid to v, with or without the closing quote |
| Snapshots.CurrentUidAsWritten | vmware-snapshot.c:190-192 | the string line 192 copies into currentUid, from the second extraction on the already-cut line (None for the NULL it would pass), is a prefix of the first extraction's value |
| Snapshots.CurrentUnclosedReadsNull | vmware-snapshot.c:190-192 | for `snapshot.current = "v` the first extraction yields v and the second finds none |
| Snapshots.CurrentClosedAgrees | vmware-snapshot.c:190-192 | with the closing quote and a quote-free v, both extractions yield v |
| SnapshotTables.SnapshotTable.constructor | vmware-snapshot.c:176-184 | `snapshots[20] = { 0 }`, `cur_index = -1` and `currentUid[8] = { 0 }` give a valid table whose view is the empty table: no records and an empty currentUid |
| SnapshotTables.SnapshotTable.OpenEntry | vmware-snapshot.c:201-206 | cur_index++ and the copy of the id when it differs from the current record's, as OpenRecord on the table's view |
| SnapshotTables.SnapshotTable.SetCurrentField | vmware-snapshot.c:215-222 | the strcpy into a field of snapshots[cur_index] is SetLast, or FieldTooLong when the value does not fit |
| SnapshotTables.SnapshotTable.GeneralLine | vmware-snapshot.c:186-196 | a `snapshot.` line does what Step says: only `snapshot.current` with a value changes currentUid |
| SnapshotTables.SnapshotTable.EntryLine | vmware-snapshot.c:197-225 | a `snapshotN.` line does what Step says: MissingDot, opening the record, then the property |
| SnapshotTables.SnapshotTable.PropertyLine | vmware-snapshot.c:208-225 | the property's value goes into the field the cut property names, as SetProperty says |
| SnapshotTables.PropertyField | vmware-snapshot.c:215-225 | the CMPHEAD chain returns the field FieldOf names |
| SnapshotTables.SnapshotTable.AddLine | vmware-snapshot.c:185-229 | one loop pass moves the table from its old view to Step's result, or returns Step's error |
| SnapshotTables.SnapshotTable.Load | vmware-snapshot.c:183-229 | the whole loop leaves the view BuildFrom computes, or returns its first error, and keeps the table valid |
| SnapshotTables.SnapshotTable.FindUid | vmware-snapshot.c:253-258 | the search returns the first record with the uid, or cur_index + 1 when there is none |
| SnapshotTables.SnapshotTable.ResolveChain | vmware-snapshot.c:246-275 | filling disks[0x400] backwards returns Walk from currentUid with the active disk as suffix |
| SnapshotTables.SnapshotTable.Prepend | vmware-snapshot.c:264-267 | one hop moves disksend back over the disk name and a space in front of what was there, and leaves the bytes before the new disksend unchanged |
| Chain.UidIndexIsFirst | vmware-snapshot.c:253-261 | the search finds the first record carrying the uid, and none exactly when no record carries it |
| Chain.WalkComplete | vmware-snapshot.c:246-275 | for a chain from cur to a root that fits the buffer, the walk returns its disk names root first, space-separated, followed by the active disk |
| Chain.WalkSound | vmware-snapshot.c:246-275 | every result of the walk is spelled that way by a chain from cur to the first record with an empty parent |
| Chain.ChainIsUnique | vmware-snapshot.c:252-272 | the chain from a uid is unique |
| Chain.UnknownUidNotInChain | vmware-snapshot.c:259-261 | a uid no record carries fails with "can't find target snapshot in chain" |
| Chain.CycleTooLong | vmware-snapshot.c:252-272 | when every record has a parent and every parent is found, the walk ends with ChainTooLong |
| Chain.TwoSnapshotExample | vmware-snapshot.c:246-275 | records {uid 1, parent 2, a.vmdk} and {uid 2, no parent, b.vmdk}, current 1 and active disk c.vmdk give `b.vmdk a.vmdk c.vmdk` |
| VmSnapCommand.VmSnap | vmware-snapshot.c:96-276 | the command's code returns Command: FilenameExpected for argc != 1, the path errors, VmxOpenFailed, the disk errors, the disk alone without a .vmsd file, otherwise the table's errors or the walk |
| VmSnapCommand.SelectedDiskFits | vmware-snapshot.c:151-156 | the chosen disk is non-empty and fits curdisk |
| VmSnapCommand.NoVmsdActiveDiskOnly | vmware-snapshot.c:167-171 | when the .vmsd file cannot be opened, the result is the selected disk |
| VmSnapCommand.NoSnapshotsNotInChain | vmware-snapshot.c:252-261 | a .vmsd file without snapshot entries fails with "can't find target snapshot in chain" |
| VmSnapCommand.CommandEndsWithActiveDisk | vmware-snapshot.c:246-275 | every result ends with the active disk; with a .vmsd file it is the disk names of the chain from snapshot.current, root first, followed by the active disk |

## Left out

- GRUB's file layer (`grub_file_open`, `grub_file_getline`, `grub_file_close`) is not modelled. A file is the sequence of its lines in the map `files`, and a path missing from the map is a failed open. `grub_errno` bookkeeping is left out too.
- `_handle_return` (lines 50-55) is left out: it sets an environment variable or prints. The model returns the string it would receive.
- Debug output and `grub_refresh` (`DEBUG`, `DEBUG_REFRESH`, and the `grub_printf` traces at lines 162, 239-242 and 263) are left out; they do not affect the result.
- Module registration (lines 279-289) and the `--set` option table (lines 43-48) are left out.
- The commented-out `extract_config_line` (lines 74-90) and the unused `MAX_VMFILE_SIZE` are left out; neither has any effect.
- A disk-image header walk is not part of this model. The file contains no code for one.
- Lines, the `.vmx` path and every name are byte strings: each `char` of the model stands for one byte, so a length in the model is a length in bytes, and the buffer bounds (8, 20, 256, 0x400) are checked on it. Decoding of multi-byte characters is not modelled; a name in a multi-byte encoding is its sequence of encoded bytes.
- The char arrays of `struct SNAPSHOT`, `currentUid` and `cur` are modelled as strings, with their sizes enforced by the FieldTooLong checks and the `Fits` invariant. Byte-level copies are modelled only for the line buffers, the path buffer and `disks`.
- `disks[sizeof(disks) - 1] = 0` (line 274) is not modelled: it rewrites the NUL that the copy of the active disk already put there.
- GeneralLine: the second `extract_config_val` at line 192 is not modelled; the table model copies the first extraction's value (see Findings). The two also differ for a `snapshot.current` value that itself holds a quote: the second extraction then stops at that inner quote.

## Findings

| source | as written | input that shows it | evidently intended | confidence | as-written member | corrected member |
|---|---|---|---|---|---|---|
| vmware-snapshot.c:190-192 | after checking that `extract_config_val(buf)` found a value, the code calls `extract_config_val(buf)` a second time on the already-cut line and copies that result into `currentUid` | `snapshot.current = "1` (no closing quote): the first call returns `1` and cuts the line at the marker's own quote, so the second call finds no ` = "`, returns NULL, and `grub_strcpy(currentUid, NULL)` reads from address 0 | copy the value already found: `grub_strcpy(currentUid, ret)` | high; not executed | Snapshots.CurrentUnclosedReadsNull | Snapshots.StepSetsCurrentUid |
