/** The walk from snapshot.current up the parent links, which prepends each snapshot's disk
    name to the active disk in the 0x400-byte disks buffer. */
module Chain {
  import opened Types
  import opened Snapshots

  /** The first record at or after k whose uid is cur: the source's `for (i = 0; i <=
      cur_index; i++)` search with grub_strcmp. */
  function UidIndexFrom(records: seq<Snapshot>, cur: string, k: nat): (r: Option<nat>)
    requires k <= |records|
    ensures r.Some? ==> k <= r.value < |records|
    decreases |records| - k
  {
    if k == |records| then None
    else if records[k].uid == cur then Some(k)
    else UidIndexFrom(records, cur, k + 1)
  }

  function UidIndex(records: seq<Snapshot>, cur: string): (r: Option<nat>)
    ensures r.Some? ==> r.value < |records|
  {
    UidIndexFrom(records, cur, 0)
  }

  lemma {:induction false} UidIndexFromIsFirst(records: seq<Snapshot>, cur: string, k: nat)
    requires k <= |records|
    ensures UidIndexFrom(records, cur, k).Some? ==>
      var i := UidIndexFrom(records, cur, k).value;
      records[i].uid == cur && forall j :: k <= j < i ==> records[j].uid != cur
    ensures UidIndexFrom(records, cur, k).None? <==>
      forall j :: k <= j < |records| ==> records[j].uid != cur
    decreases |records| - k
  {
    if k < |records| && records[k].uid != cur {
      UidIndexFromIsFirst(records, cur, k + 1);
    }
  }

  /** The search finds the first record carrying the uid, and fails exactly when no record
      carries it. */
  lemma UidIndexIsFirst(records: seq<Snapshot>, cur: string)
    ensures UidIndex(records, cur).Some? ==>
      var i := UidIndex(records, cur).value;
      records[i].uid == cur && forall j :: 0 <= j < i ==> records[j].uid != cur
    ensures UidIndex(records, cur).None? <==>
      forall j :: 0 <= j < |records| ==> records[j].uid != cur
  {
    UidIndexFromIsFirst(records, cur, 0);
  }

  /** The chain walk from uid cur with suffix already at the end of the disks buffer. Every hop
      moves disksend back by the disk name's length plus one; the hop that would move it in
      front of the buffer is reported as ChainTooLong. */
  function Walk(records: seq<Snapshot>, cur: string, suffix: string): Result<string>
    requires |suffix| < MaxRetBuf
    decreases MaxRetBuf - |suffix|
  {
    match UidIndex(records, cur)
    case None => Err(NotInChain)
    case Some(i) =>
      var name := records[i].diskName;
      if |suffix| + |name| + 1 >= MaxRetBuf then Err(ChainTooLong)
      else
        var s := name + " " + suffix;
        if records[i].parent == "" then Ok(s) else Walk(records, records[i].parent, s)
  }

  /** One hop of the walk, for a uid that is found and a name that fits. */
  lemma WalkHop(records: seq<Snapshot>, cur: string, suffix: string)
    requires |suffix| < MaxRetBuf && UidIndex(records, cur).Some?
    requires |suffix| + |records[UidIndex(records, cur).value].diskName| + 1 < MaxRetBuf
    ensures var r := records[UidIndex(records, cur).value];
      var s := r.diskName + " " + suffix;
      Walk(records, cur, suffix) == if r.parent == "" then Ok(s) else Walk(records, r.parent, s)
  {
  }

  // ---------------------------------------------------------------- reference definition

  /** path lists the record indices met from uid cur to a root: each is the first record with
      the uid asked for, each but the last has a parent, and the last has none. */
  ghost predicate IsChain(records: seq<Snapshot>, cur: string, path: seq<nat>)
    decreases |path|
  {
    && |path| > 0
    && UidIndex(records, cur) == Some(path[0])
    && if |path| == 1 then records[path[0]].parent == ""
       else records[path[0]].parent != "" && IsChain(records, records[path[0]].parent, path[1..])
  }

  /** The disk names along a path, root first, each followed by a space. */
  ghost function Spelled(records: seq<Snapshot>, path: seq<nat>): string
  {
    if path == [] then ""
    else Spelled(records, path[1..]) + (if path[0] < |records| then records[path[0]].diskName else "")
         + " "
  }

  /** A chain is determined by its start. */
  lemma {:induction false} ChainIsUnique(records: seq<Snapshot>, cur: string, p: seq<nat>, q: seq<nat>)
    requires IsChain(records, cur, p) && IsChain(records, cur, q)
    ensures p == q
    decreases |p|
  {
    if |p| > 1 {
      ChainIsUnique(records, records[p[0]].parent, p[1..], q[1..]);
      assert p == [p[0]] + p[1..] && q == [q[0]] + q[1..];
    }
  }

  /** When the chain from cur reaches a root and its names fit in front of the suffix, the walk
      returns them root first, followed by the suffix. */
  lemma {:induction false} WalkComplete(records: seq<Snapshot>, cur: string, path: seq<nat>,
                                        suffix: string)
    requires IsChain(records, cur, path) && |suffix| < MaxRetBuf
    requires |Spelled(records, path)| + |suffix| < MaxRetBuf
    ensures Walk(records, cur, suffix) == Ok(Spelled(records, path) + suffix)
    decreases |path|
  {
    var r := records[path[0]];
    var s := r.diskName + " " + suffix;
    if |path| > 1 {
      var tail := path[1..];
      assert Spelled(records, path) == Spelled(records, tail) + r.diskName + " ";
      assert |Spelled(records, tail)| + |s| == |Spelled(records, path)| + |suffix|;
      WalkComplete(records, r.parent, tail, s);
      assert Spelled(records, tail) + s == Spelled(records, path) + suffix;
    } else {
      assert Spelled(records, path) == Spelled(records, []) + r.diskName + " ";
      assert Spelled(records, path) + suffix == s;
    }
  }

  /** Whatever the walk returns is spelled by a chain from cur that fits the buffer. */
  lemma {:induction false} WalkSound(records: seq<Snapshot>, cur: string, suffix: string)
    requires |suffix| < MaxRetBuf && Walk(records, cur, suffix).Ok?
    ensures exists path :: (IsChain(records, cur, path)
                            && |Spelled(records, path)| + |suffix| < MaxRetBuf
                            && Walk(records, cur, suffix).value == Spelled(records, path) + suffix)
    decreases MaxRetBuf - |suffix|
  {
    var i := UidIndex(records, cur).value;
    var r := records[i];
    var s := r.diskName + " " + suffix;
    if r.parent == "" {
      var path := [i];
      assert IsChain(records, cur, path);
      assert Spelled(records, path) == Spelled(records, []) + r.diskName + " ";
      assert Spelled(records, path) + suffix == s;
    } else {
      WalkSound(records, r.parent, s);
      var tail :| IsChain(records, r.parent, tail)
        && |Spelled(records, tail)| + |s| < MaxRetBuf
        && Walk(records, r.parent, s).value == Spelled(records, tail) + s;
      var path := [i] + tail;
      assert path[1..] == tail;
      assert IsChain(records, cur, path);
      assert Spelled(records, path) == Spelled(records, tail) + r.diskName + " ";
      assert Spelled(records, tail) + s == Spelled(records, path) + suffix;
    }
  }

  /** With no records, or no record carrying the uid, the walk fails before writing anything. */
  lemma UnknownUidNotInChain(records: seq<Snapshot>, cur: string, suffix: string)
    requires |suffix| < MaxRetBuf
    requires forall j :: 0 <= j < |records| ==> records[j].uid != cur
    ensures Walk(records, cur, suffix) == Err(NotInChain)
  {
    UidIndexIsFirst(records, cur);
  }

  /** Parent links that never reach a root: when every record has a parent and every parent
      uid names a record, the walk from a known uid runs until the buffer is full. */
  lemma {:induction false} CycleTooLong(records: seq<Snapshot>, cur: string, suffix: string)
    requires |suffix| < MaxRetBuf && UidIndex(records, cur).Some?
    requires forall j :: 0 <= j < |records| ==>
      records[j].parent != "" && UidIndex(records, records[j].parent).Some?
    ensures Walk(records, cur, suffix) == Err(ChainTooLong)
    decreases MaxRetBuf - |suffix|
  {
    var i := UidIndex(records, cur).value;
    var r := records[i];
    if |suffix| + |r.diskName| + 1 < MaxRetBuf {
      CycleTooLong(records, r.parent, r.diskName + " " + suffix);
    }
  }

  /** Snapshot 1 on top of root snapshot 2, with the active disk c.vmdk: the list names the
      root's disk, then snapshot 1's, then the active disk. */
  lemma TwoSnapshotExample()
    ensures Walk([Snapshot("snapshot0", "1", "a.vmdk", "one", "2"),
                  Snapshot("snapshot1", "2", "b.vmdk", "two", "")], "1", "c.vmdk")
            == Ok("b.vmdk a.vmdk c.vmdk")
  {
    var records := [Snapshot("snapshot0", "1", "a.vmdk", "one", "2"),
                    Snapshot("snapshot1", "2", "b.vmdk", "two", "")];
    assert UidIndex(records, "1") == Some(0);
    assert UidIndex(records, "2") == Some(1);
    WalkHop(records, "1", "c.vmdk");
    WalkHop(records, "2", "a.vmdk c.vmdk");
    assert "a.vmdk" + " " + "c.vmdk" == "a.vmdk c.vmdk";
    assert "b.vmdk" + " " + "a.vmdk c.vmdk" == "b.vmdk a.vmdk c.vmdk";
  }
}
