/** Shared types and the fixed sizes of the `vmsnap` command's buffers. */
module Types {

  datatype Option<T> = None | Some(value: T)

  datatype Result<T> = Ok(value: T) | Err(error: Error)

  /** Why the command fails. The first five are the source's own grub_error calls; the rest
      stand for a buffer overrun or a null dereference that the source would commit and that
      this model reports instead. */
  datatype Error =
    | FilenameExpected   // argc != 1 (GRUB_ERR_BAD_ARGUMENT)
    | InvalidVmxPath     // no '.' in the vmx path (GRUB_ERR_BAD_ARGUMENT)
    | VmxOpenFailed      // the vmx file cannot be opened
    | NoDisk             // "invalid vmx contains no disk"
    | NotInChain         // "can't find target snapshot in chain"
    | PathTooLong        // vmxpath[256] or vmsdpath[256] would overflow
    | DiskNameTooLong    // curdisk[256] would overflow
    | TooManySnapshots   // snapshots[MAX_SNAPSHOT_NUM] would overflow
    | FieldTooLong       // a char array of struct SNAPSHOT, or currentUid[8], would overflow
    | MissingDot         // strchr found no '.' in a snapshotN line
    | ChainTooLong       // disksend would move in front of disks[MAX_RET_BUF]

  const MaxRetBuf: nat := 0x400
  const MaxSnapshotNum: nat := 20
  /** Size of vmxpath, vmsdpath, curdisk and of a record's diskname and displayname. */
  const NameSize: nat := 256
  /** Size of a record's entry id. */
  const EntrySize: nat := 20
  /** Size of a record's uid and parent, of currentUid and of the walk cursor. */
  const UidSize: nat := 8
}
