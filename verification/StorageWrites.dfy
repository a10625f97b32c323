/** What the event store's calls write to disk and flash, one persistent write at a time, and where a power cut
    between two of them leaves the store. */
module StorageWrites {
  import opened Options
  import opened Octets
  import opened StorageSpec
  import opened StorageProofs

  datatype Disk = Disk(files: Files, nvs: Option<Nvs>)

  function DiskOf(st: State): Disk { Disk(st.files, st.nvs) }

  /** Each of these happens completely or not at all. */
  datatype Write =
    | PutFile(name: FileName, json: seq<Byte>)
    | Unlink(name: FileName)
    | PutCount(count: nat)
    | PutNext(next: U32)
    | PutBlob(key: nat, entries: seq<Entry>)

  function Flash(d: Disk): Nvs { if d.nvs.Some? then d.nvs.value else Nvs(None, None, map[]) }

  function Put(d: Disk, w: Write): Disk {
    match w
    case PutFile(name, json) => d.(files := d.files[name := json])
    case Unlink(name) => d.(files := d.files - {name})
    case PutCount(n) => d.(nvs := Some(Flash(d).(count := Some(n))))
    case PutNext(n) => d.(nvs := Some(Flash(d).(next := Some(n))))
    case PutBlob(k, entries) => d.(nvs := Some(Flash(d).(blobs := Flash(d).blobs[k := entries])))
  }

  function PutAll(d: Disk, ws: seq<Write>): Disk {
    if ws == [] then d else Put(PutAll(d, ws[..|ws| - 1]), ws[|ws| - 1])
  }

  function ChunkCount(n: nat): (k: nat)
    ensures forall i: nat :: i < k <==> ChunkStart(i) < n
  {
    (n + CHUNK - 1) / CHUNK
  }

  function Blobs(index: seq<Entry>, m: nat): (ws: seq<Write>)
    requires m <= ChunkCount(|index|)
    ensures |ws| == m
  {
    if m == 0 then [] else Blobs(index, m - 1) + [PutBlob(m - 1, ChunkOf(index, m - 1))]
  }

  /** save_index_to_nvs: the counters, then the blobs in order. */
  function IndexWrites(index: seq<Entry>, next: U32): (ws: seq<Write>)
    ensures |ws| == 2 + ChunkCount(|index|)
  {
    [PutCount(|index|), PutNext(next)] + Blobs(index, ChunkCount(|index|))
  }

  /** The files of the live expired entries, in the order in which they are unlinked. */
  function Unlinks(index: seq<Entry>, now: U32): seq<Write> {
    if index == [] then []
    else
      var last := index[|index| - 1];
      Unlinks(index[..|index| - 1], now) + if !last.deleted && Expired(last.expires, now) then [Unlink(Name(last))] else []
  }

  /** What a call does to the file system, which is always first. */
  function FileWrites(st: State, c: Config, op: Op): seq<Write> {
    match op
    case Save(e, now, opens) =>
      if Writes(st, c, op) then [PutFile(Name(NewEntry(e, now, c.ttl, st.next)), e.json)] else []
    case Delete(id) =>
      var i := Lookup(st.index, id);
      if i < |st.index| then [Unlink(Name(st.index[i]))] else []
    case Purge(now) => Unlinks(st.index, now)
    case Compact => []
    case Exists(_) => []
    case Find(_, _) => []
    case Restart => []
    case PowerCut => []
  }

  /** The state from which a call writes the index, if it does. */
  function Target(st: State, c: Config, op: Op): State {
    match op
    case Save(e, now, opens) => if Writes(st, c, op) then Added(st, c, e, now) else st
    case Delete(id) =>
      var i := Lookup(st.index, id);
      if i < |st.index| then Removed(st, i) else st
    case Purge(now) => st.(index := Buried(st.index, now), files := st.files - Dead(st.index, now))
    case Compact => st.(index := Kept(st.index))
    case Exists(_) => st
    case Find(_, _) => st
    case Restart => st
    case PowerCut => st
  }

  predicate SavesIndex(st: State, c: Config, op: Op) {
    match op
    case Save(e, now, opens) => Writes(st, c, op) && (|st.index| + 1) % 10 == 0
    case Delete(id) => Lookup(st.index, id) < |st.index|
    case Purge(now) => DeadCount(st.index, now) > 0
    case Compact => |Kept(st.index)| < |st.index|
    case Exists(_) => false
    case Find(_, _) => false
    case Restart => true
    case PowerCut => false
  }

  /** All that a call writes, in order. */
  function CallWrites(st: State, c: Config, op: Op): seq<Write> {
    var t := Target(st, c, op);
    FileWrites(st, c, op) + if SavesIndex(st, c, op) then IndexWrites(t.index, t.next) else []
  }

  /** The engine started on this disk. */
  function Started(d: Disk, c: Config): State {
    State(Loaded(d.nvs, c.capacity), LoadedNext(d.nvs), d.files, d.nvs)
  }

  /** A power cut within a call, after so many of its writes, and the next start. */
  function CutState(st: State, c: Config, op: Op, w: nat): State
    requires w <= |CallWrites(st, c, op)|
  {
    Started(PutAll(DiskOf(st), CallWrites(st, c, op)[..w]), c)
  }

  // ----- all the writes are the whole effect

  lemma PutAllSnoc(d: Disk, ws: seq<Write>, w: Write)
    ensures PutAll(d, ws + [w]) == Put(PutAll(d, ws), w)
  {
    assert (ws + [w])[..|ws|] == ws;
  }

  lemma PutNothing(d: Disk)
    ensures PutAll(d, []) == d
  {
  }

  lemma {:induction false} PutAllAppend(d: Disk, a: seq<Write>, b: seq<Write>)
    ensures PutAll(d, a + b) == PutAll(PutAll(d, a), b)
  {
    hide Put, PutAll;
    if b == [] {
      assert a + b == a;
      PutNothing(PutAll(d, a));
    } else {
      var init, last := b[..|b| - 1], b[|b| - 1];
      PutAllAppend(d, a, init);
      PutAllSnoc(d, a + init, last);
      PutAllSnoc(PutAll(d, a), init, last);
      assert a + b == (a + init) + [last] && b == init + [last];
    }
  }

  lemma PutAllOne(d: Disk, w: Write)
    ensures PutAll(d, [w]) == Put(d, w)
  {
    assert [w][..0] == [];
  }

  /** The blobs after the first m chunks have been written. */
  function Written(stale: map<nat, seq<Entry>>, index: seq<Entry>, m: nat): map<nat, seq<Entry>>
    requires m <= ChunkCount(|index|)
  {
    stale + map k: nat | k < m :: ChunkOf(index, k)
  }

  lemma {:induction false} BlobsWritten(d: Disk, index: seq<Entry>, m: nat)
    requires m <= ChunkCount(|index|) && d.nvs.Some?
    ensures PutAll(d, Blobs(index, m)) == d.(nvs := Some(Flash(d).(blobs := Written(Flash(d).blobs, index, m))))
  {
    hide ChunkOf, ChunkCount, PutAll, Written;
    if m == 0 {
      PutNothing(d);
      WrittenNone(Flash(d).blobs, index);
    } else {
      BlobsWritten(d, index, m - 1);
      PutAllSnoc(d, Blobs(index, m - 1), PutBlob(m - 1, ChunkOf(index, m - 1)));
      WrittenMore(Flash(d).blobs, index, m);
    }
  }

  lemma WrittenNone(stale: map<nat, seq<Entry>>, index: seq<Entry>)
    ensures Written(stale, index, 0) == stale
  {
  }

  lemma WrittenMore(stale: map<nat, seq<Entry>>, index: seq<Entry>, m: nat)
    requires 0 < m <= ChunkCount(|index|)
    ensures Written(stale, index, m - 1)[m - 1 := ChunkOf(index, m - 1)] == Written(stale, index, m)
  {
    hide ChunkOf, ChunkCount;
  }

  lemma {:induction false} BlobsPrefix(index: seq<Entry>, m: nat, n: nat)
    requires m <= n <= ChunkCount(|index|)
    ensures Blobs(index, n)[..m] == Blobs(index, m)
  {
    hide ChunkOf, ChunkCount;
    if m < n {
      BlobsPrefix(index, m, n - 1);
    } else {
      assert Blobs(index, n)[..n] == Blobs(index, n);
    }
  }

  /** Both counters and m blobs are written. */
  lemma CountersAndBlobs(d: Disk, index: seq<Entry>, next: U32, m: nat)
    requires m <= ChunkCount(|index|)
    ensures PutAll(d, IndexWrites(index, next)[..2 + m])
         == d.(nvs := Some(Nvs(Some(|index|), Some(next), Written(Flash(d).blobs, index, m))))
  {
    hide ChunkCount, Written, Blobs;
    var counters := [PutCount(|index|), PutNext(next)];
    BlobsPrefix(index, m, ChunkCount(|index|));
    assert IndexWrites(index, next)[..2 + m] == counters + Blobs(index, m);
    PutAllAppend(d, counters, Blobs(index, m));
    assert counters == [PutCount(|index|)] + [PutNext(next)];
    PutAllAppend(d, [PutCount(|index|)], [PutNext(next)]);
    PutAllOne(d, PutCount(|index|));
    PutAllOne(Put(d, PutCount(|index|)), PutNext(next));
    BlobsWritten(PutAll(d, counters), index, m);
  }

  /** The first counter alone. */
  lemma FirstCounter(d: Disk, index: seq<Entry>, next: U32)
    ensures PutAll(d, IndexWrites(index, next)[..1]) == Put(d, PutCount(|index|))
  {
    assert IndexWrites(index, next)[..1] == [PutCount(|index|)];
    PutAllOne(d, PutCount(|index|));
  }

  lemma IndexWritten(st: State)
    ensures PutAll(DiskOf(st), IndexWrites(st.index, st.next)) == DiskOf(Persist(st))
  {
    hide ChunkOf;
    var k := ChunkCount(|st.index|);
    CountersAndBlobs(DiskOf(st), st.index, st.next, k);
    assert IndexWrites(st.index, st.next)[..2 + k] == IndexWrites(st.index, st.next);
    AllWritten(Flash(DiskOf(st)).blobs, st.index);
  }

  lemma AllWritten(stale: map<nat, seq<Entry>>, index: seq<Entry>)
    ensures Written(stale, index, ChunkCount(|index|))
         == stale + (map k: nat | k < |index| && ChunkStart(k) < |index| :: ChunkOf(index, k))
  {
    hide ChunkOf;
    forall k: nat ensures k < ChunkCount(|index|) <==> k < |index| && ChunkStart(k) < |index| {
      ChunkBelow(k, |index|);
    }
    assert (map k: nat | k < ChunkCount(|index|) :: ChunkOf(index, k))
        == (map k: nat | k < |index| && ChunkStart(k) < |index| :: ChunkOf(index, k));
  }

  lemma ChunkBelow(k: nat, n: nat)
    ensures k < ChunkCount(n) <==> ChunkStart(k) < n
    ensures ChunkStart(k) < n ==> k < n
  {
  }

  lemma {:induction false} UnlinksLeave(d: Disk, index: seq<Entry>, now: U32)
    ensures PutAll(d, Unlinks(index, now)) == d.(files := d.files - Dead(index, now))
    ensures |Unlinks(index, now)| == DeadCount(index, now)
  {
    hide PutAll, Unlinks, Dead, DeadCount, Expired, Name;
    if index == [] {
      NoUnlinks(d, now);
    } else {
      var init, last := index[..|index| - 1], index[|index| - 1];
      UnlinksLeave(d, init, now);
      UnlinksLast(index, now);
      if !last.deleted && Expired(last.expires, now) {
        PutAllSnoc(d, Unlinks(init, now), Unlink(Name(last)));
        assert d.files - Dead(init, now) - {Name(last)} == d.files - (Dead(init, now) + {Name(last)});
      }
    }
  }

  lemma NoUnlinks(d: Disk, now: U32)
    ensures PutAll(d, Unlinks([], now)) == d && Dead([], now) == {} && DeadCount([], now) == |Unlinks([], now)| == 0
    ensures d.files - {} == d.files
  {
  }

  lemma UnlinksLast(index: seq<Entry>, now: U32)
    requires index != []
    ensures var init, last := index[..|index| - 1], index[|index| - 1];
            var hit := !last.deleted && Expired(last.expires, now);
            && Unlinks(index, now) == (if hit then Unlinks(init, now) + [Unlink(Name(last))] else Unlinks(init, now))
            && Dead(index, now) == (if hit then Dead(init, now) + {Name(last)} else Dead(init, now))
            && DeadCount(index, now) == DeadCount(init, now) + (if hit then 1 else 0)
  {
    hide Expired, Name;
    var init := index[..|index| - 1];
    assert Unlinks(init, now) + [] == Unlinks(init, now);
    assert Dead(init, now) + {} == Dead(init, now);
  }

  /** What the file system holds once a call has done its part there. */
  lemma FilesWritten(st: State, c: Config, op: Op)
    ensures PutAll(DiskOf(st), FileWrites(st, c, op)) == Disk(Target(st, c, op).files, st.nvs)
  {
    hide Name, Dead, Unlinks;
    match op
    case Save(e, now, opens) =>
      if Writes(st, c, op) { PutAllOne(DiskOf(st), PutFile(Name(NewEntry(e, now, c.ttl, st.next)), e.json)); }
    case Delete(id) =>
      var i := Lookup(st.index, id);
      if i < |st.index| { PutAllOne(DiskOf(st), Unlink(Name(st.index[i]))); }
    case Purge(now) => UnlinksLeave(DiskOf(st), st.index, now);
    case Compact =>
    case Exists(_) =>
    case Find(_, _) =>
    case Restart =>
    case PowerCut =>
  }

  /** All the writes of a call leave the disk as the whole call does. */
  lemma WholeCall(st: State, c: Config, op: Op)
    ensures PutAll(DiskOf(st), CallWrites(st, c, op)) == DiskOf(Step(st, c, op).0)
  {
    hide PutAll, IndexWrites, Loaded, LoadedNext, Lookup, Scan;
    var t := Target(st, c, op);
    FilesWritten(st, c, op);
    if SavesIndex(st, c, op) {
      PutAllAppend(DiskOf(st), FileWrites(st, c, op), IndexWrites(t.index, t.next));
      IndexWritten(t.(nvs := st.nvs));
      TargetPersisted(st, c, op);
    } else {
      assert FileWrites(st, c, op) + [] == FileWrites(st, c, op);
      NothingSaved(st, c, op);
    }
  }

  lemma TargetPersisted(st: State, c: Config, op: Op)
    requires SavesIndex(st, c, op)
    ensures Target(st, c, op).nvs == st.nvs
    ensures DiskOf(Step(st, c, op).0) == DiskOf(Persist(Target(st, c, op)))
  {
    hide Persist, Kept, Buried, Dead, DeadCount, Loaded, LoadedNext, Name, Scan;
  }

  lemma NothingSaved(st: State, c: Config, op: Op)
    requires !SavesIndex(st, c, op)
    ensures DiskOf(Step(st, c, op).0) == Disk(Target(st, c, op).files, st.nvs)
  {
    hide Persist, Kept, Buried, Dead, Loaded, LoadedNext, Name, Scan;
    if op.Purge? { NoneDead(st.index, op.now); }
  }

  // ----- the writes themselves

  /** A save that is done writes one file, under half of the event's id and the next number. */
  lemma SavedFile(st: State, c: Config, e: Event, now: U32, opens: bool)
    requires Writes(st, c, Save(e, now, opens))
    ensures FileWrites(st, c, Save(e, now, opens)) == [PutFile(FileName(e.id[..16], st.next), e.json)]
  {
  }

  /** The k-th blob holds entries 50 k to 50 k + 49, as far as there are so many. */
  lemma {:induction false} BlobIs(index: seq<Entry>, m: nat, k: nat)
    requires k < m <= ChunkCount(|index|)
    ensures 50 * k < |index|
    ensures Blobs(index, m)[k] == PutBlob(k, index[50 * k..if 50 * k + 50 <= |index| then 50 * k + 50 else |index|])
  {
    hide Blobs;
    BlobsLast(index, m);
    if k < m - 1 { BlobIs(index, m - 1, k); }
  }

  lemma BlobsLast(index: seq<Entry>, m: nat)
    requires 0 < m <= ChunkCount(|index|)
    ensures Blobs(index, m) == Blobs(index, m - 1) + [PutBlob(m - 1, ChunkOf(index, m - 1))]
  {
    hide ChunkOf;
  }

  /** There are as many blobs as it takes. */
  lemma EnoughBlobs(n: nat)
    ensures 50 * ChunkCount(n) >= n && (n > 0 ==> 50 * (ChunkCount(n) - 1) < n)
  {
  }

  /** What a save that is done leaves in memory: one more entry with the event's id and author, its time and kind cut to 32
      and 16 bits, its time to live, the next number and no mark; and the next number is one more, modulo 2^32. */
  lemma SavedEntry(st: State, c: Config, e: Event, now: U32, opens: bool)
    requires Writes(st, c, Save(e, now, opens))
    ensures var t := Step(st, c, Save(e, now, opens)).0;
            && |t.index| == |st.index| + 1 && t.index[..|st.index|] == st.index
            && t.index[|st.index|] ==
                 Entry(e.id, e.createdAt % 0x1_0000_0000, (now + c.ttl) % 0x1_0000_0000, st.next, e.kind % 0x1_0000, e.author, false)
            && t.next == (st.next + 1) % 0x1_0000_0000
            && t.files == st.files[FileName(e.id[..16], st.next) := e.json]
  {
    hide Persist;
    PersistLeaves(Added(st, c, e, now));
  }

  lemma PersistLeaves(st: State)
    ensures Persist(st).index == st.index && Persist(st).next == st.next && Persist(st).files == st.files
  {
  }
}
