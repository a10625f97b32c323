/** The event store as the device keeps it: an index array changed in place, files and flash beside it, and a record of
    the order in which these two are written. */
module StorageEngine {
  import opened Options
  import opened Octets
  import opened StorageSpec
  import opened StorageProofs
  import opened StorageWrites
  import opened StorageAnswers
  import opened Widths

  class Engine {
    const config: Config
    const index: array<Entry>
    var count: nat
    var next: U32
    var files: Files
    var nvs: Option<Nvs>
    ghost var log: seq<Write>

    ghost predicate Valid() reads this { index.Length == config.capacity && count <= index.Length }

    ghost function State(): State
      reads this, index
      requires Valid()
    {
      StorageSpec.State(index[..count], next, files, nvs)
    }

    /** The index as a sequence; a name of its own keeps the proofs small. */
    ghost function Index(): (s: seq<Entry>)
      reads this, index
      requires Valid()
      ensures |s| == count && forall i :: 0 <= i < count ==> s[i] == index[i]
    {
      index[..count]
    }

    ghost function Stores(): Disk reads this { Disk(files, nvs) }

    /** storage_init, on the disk and the flash of an earlier run. */
    constructor (config: Config, files: Files, nvs: Option<Nvs>)
      ensures Valid() && this.config == config && fresh(index) && log == []
      ensures State() == Boot(StorageSpec.State([], 0, files, nvs), config)
    {
      this.config := config;
      this.files := files;
      this.nvs := nvs;
      count := 0;
      next := 0;
      log := [];
      index := new Entry[config.capacity](_ => Blank());
      new;
      var status := LoadIndex();
      if status != Done {
        count := 0;
        this.next := 0;
      }
    }

    /** load_index_from_nvs: the counters, then chunk by chunk into the zeroed index. */
    method LoadIndex() returns (status: Status)
      requires Valid() && count == 0 && next == 0 && forall i :: 0 <= i < index.Length ==> index[i] == Blank()
      modifies this`count, this`next, index
      ensures Valid()
      ensures status == if nvs.None? || Counted(nvs) then Done else Io
      ensures status == Done ==> State() == Boot(old(State()), config)
      ensures status != Done ==> Boot(old(State()), config) == old(State())
    {
      if nvs.None? { return Done; }
      if nvs.value.count.None? { return Io; }
      count := Min(nvs.value.count.value, config.capacity);
      if nvs.value.next.None? { return Io; }
      next := nvs.value.next.value;
      var i := 0;
      while i < count
        invariant Valid() && count == Min(nvs.value.count.value, config.capacity) && next == nvs.value.next.value
        invariant i % CHUNK == 0 && i <= count + CHUNK
        invariant forall j :: 0 <= j < i && j < count ==> index[j] == LoadedSlot(nvs.value.blobs, count, j)
        invariant forall j :: i <= j < index.Length ==> index[j] == Blank()
      {
        GetBlob(i, Min(count - i, CHUNK));
        i := i + CHUNK;
      }
      assert index[..count] == Loaded(nvs, config.capacity);
      status := Done;
    }

    /** nvs_get_blob: one chunk, unless it is missing or longer than the space for it. */
    method GetBlob(i: nat, entries: nat)
      requires Valid() && nvs.Some? && i % CHUNK == 0 && i < count && entries == Min(count - i, CHUNK)
      requires forall j :: i <= j < index.Length ==> index[j] == Blank()
      modifies index
      ensures forall j :: 0 <= j < index.Length && !(i <= j < i + entries) ==> index[j] == old(index[j])
      ensures forall j :: i <= j < i + entries ==> index[j] == LoadedSlot(nvs.value.blobs, count, j)
    {
      var key := i / CHUNK;
      assert forall j :: i <= j < i + entries ==> j / CHUNK == key;
      if key in nvs.value.blobs && |nvs.value.blobs[key]| <= entries {
        var blob := nvs.value.blobs[key];
        for n := 0 to |blob|
          invariant forall j :: 0 <= j < index.Length && !(i <= j < i + n) ==> index[j] == old(index[j])
          invariant forall j :: i <= j < i + n ==> index[j] == blob[j - i]
        {
          index[i + n] := blob[n];
        }
      }
    }

    /** One write to disk or flash. */
    method Commit(w: Write)
      modifies this`files, this`nvs, this`log
      ensures Stores() == Put(old(Stores()), w) && log == old(log) + [w]
    {
      var d := Put(Disk(files, nvs), w);
      files, nvs := d.files, d.nvs;
      log := log + [w];
    }

    /** save_index_to_nvs: the counters, then chunk by chunk. */
    method SaveIndex()
      requires Valid()
      modifies this`files, this`nvs, this`log
      ensures Valid() && State() == Persist(old(State()))
      ensures log == old(log) + IndexWrites(Index(), next)
    {
      hide ChunkOf, ChunkStart, ChunkCount, Put, PutAll, Persist;
      ghost var st, s, d, k := State(), Index(), Stores(), 0;
      ghost var counters := [PutCount(count), PutNext(next)];
      Commit(PutCount(count));
      Commit(PutNext(next));
      PutTwo(d, PutCount(count), PutNext(next));
      assert counters + Blobs(s, 0) == counters;
      var i := 0;
      StartOf(0);
      ChunkStartBelow(0, count);
      while i < count
        invariant i == ChunkStart(k) && k <= ChunkCount(count) && (i < count <==> k < ChunkCount(count))
        invariant log == old(log) + (counters + Blobs(s, k))
        invariant Stores() == PutAll(d, counters + Blobs(s, k))
      {
        var entries := Min(count - i, CHUNK);
        StartOf(k);
        ChunkStartBelow(k + 1, count);
        ChunkIs(s, k);
        assert index[i..i + entries] == s[i..i + entries];
        Commit(PutBlob(i / CHUNK, index[i..i + entries]));
        PutAllSnoc(d, counters + Blobs(s, k), PutBlob(k, ChunkOf(s, k)));
        assert counters + Blobs(s, k + 1) == (counters + Blobs(s, k)) + [PutBlob(k, ChunkOf(s, k))];
        k := k + 1;
        i := i + CHUNK;
      }
      assert counters + Blobs(s, k) == IndexWrites(s, next);
      IndexWritten(st);
      PersistKeeps(st);
    }

    method FindEntry(id: Id) returns (i: nat)
      requires Valid()
      ensures i == Lookup(Index(), id)
    {
      i := 0;
      while i < count
        invariant i <= count
        invariant forall j :: 0 <= j < i ==> !(index[j].id == id && !index[j].deleted)
      {
        if index[i].id == id && !index[i].deleted { return; }
        i := i + 1;
      }
    }

    /** storage_save_event_json; opens tells whether the file can be opened for writing. */
    method Save(e: Event, now: U32, opens: bool) returns (status: Status)
      requires Valid()
      modifies this, index
      ensures Valid()
      ensures (State(), status) == DoSave(old(State()), config, e, now, opens)
      ensures log == old(log) + CallWrites(old(State()), config, StorageSpec.Save(e, now, opens))
    {
      hide Persist, IndexWrites, Name, ChunkCount;
      ghost var was := Index();
      var i := FindEntry(e.id);
      if i < count { return Duplicate; }
      if count >= index.Length { return Full; }
      if !opens { return Io; }
      var entry := NewEntry(e, now, config.ttl, next);
      Commit(PutFile(Name(entry), e.json));
      index[count] := entry;
      count := count + 1;
      next := (next + 1) % TWO32;
      assert index[..count] == was + [entry];
      if count % 10 == 0 { SaveIndex(); }
      return Done;
    }

    /** storage_event_exists: is there a live event with the id? */
    method Exists(id: Id) returns (found: bool)
      requires Valid()
      ensures found == (Lookup(Index(), id) < count)
      ensures found <==> HasId(Records(Index(), files), id)
    {
      var i := FindEntry(id);
      LookupIff(Index(), files, id);
      return i < count;
    }

    /** storage_query_events_json */
    method Query(q: Query, now: U32) returns (out: seq<seq<Byte>>)
      requires Valid()
      ensures out == Scan(Index(), files, q, now, Limit(q.limit))
      ensures out == Take(Matching(Records(Index(), files), q, now), Limit(q.limit))
      ensures Answers(Index(), files, q, now, out)
    {
      var limit := Limit(q.limit);
      ghost var s := Index();
      QueryAnswers(s, files, q, now);
      ScanIs(s, files, q, now, limit);
      hide Content, Name, Expired, Selects, Answers, Records, Matching, Take, Scan, Scanned;
      out := [];
      var i := count;
      NoneScanned(s, files, q, now, limit);
      while i > 0 && |out| < limit
        invariant 0 <= i <= count && Scanned(s, files, q, now, limit, i, out)
      {
        OneScanned(s, files, q, now, limit, i, out);
        var e := index[i - 1];
        i := i - 1;
        if !e.deleted && !Expired(e.expires, now) && Selects(q, e.kind, e.author) {
          var text := Content(files, Name(e));
          if 0 < |text| <= MAX_EVENT_SIZE { out := out + [text]; }
        }
      }
      AllScanned(s, files, q, now, limit, i, out);
    }

    /** storage_delete_event */
    method Delete(id: Id) returns (status: Status)
      requires Valid()
      modifies this, index
      ensures Valid()
      ensures (State(), status) == DoDelete(old(State()), id)
      ensures log == old(log) + CallWrites(old(State()), config, StorageSpec.Delete(id))
    {
      hide Persist, IndexWrites, Name;
      ghost var was := Index();
      var i := FindEntry(id);
      if i == count { return NotFound; }
      Commit(Unlink(Name(index[i])));
      index[i] := index[i].(deleted := true);
      assert index[..count] == was[i := Mark(was[i])];
      SaveIndex();
      return Done;
    }

    /** storage_purge_expired */
    method Purge(now: U32) returns (purged: nat)
      requires Valid()
      modifies this, index
      ensures Valid()
      ensures (State(), purged) == DoPurge(old(State()), now)
      ensures log == old(log) + CallWrites(old(State()), config, StorageSpec.Purge(now))
    {
      hide Persist, IndexWrites, Dead, DeadCount, Unlinks, Buried;
      purged := MarkExpired(now);
      if purged > 0 { SaveIndex(); }
    }

    /** The loop of the purge. */
    method MarkExpired(now: U32) returns (purged: nat)
      requires Valid()
      modifies this`files, this`nvs, this`log, index
      ensures Valid() && nvs == old(nvs)
      ensures log == old(log) + Unlinks(old(Index()), now)
      ensures Index() == Buried(old(Index()), now)
      ensures files == old(files) - Dead(old(Index()), now)
      ensures purged == DeadCount(old(Index()), now)
    {
      hide Expired, Name, Mark, Dead, DeadCount, Unlinks;
      ghost var was, disk := Index(), files;
      purged := 0;
      NoneYet(was, now);
      for i := 0 to count
        invariant forall j :: 0 <= j < i ==> index[j] == Purged(was[j], now)
        invariant forall j :: i <= j < count ==> index[j] == was[j]
        invariant files == disk - Dead(was[..i], now) && nvs == old(nvs)
        invariant log == old(log) + Unlinks(was[..i], now)
        invariant purged == DeadCount(was[..i], now)
      {
        DeadMore(was, i, now);
        MarkTwice(was[i]);
        var e := index[i];
        if !e.deleted && Expired(e.expires, now) {
          Commit(Unlink(Name(e)));
          index[i] := Mark(e);
          purged := purged + 1;
        }
      }
      assert was[..count] == was;
      assert Index() == Buried(was, now);
    }

    /** storage_compact_index */
    method Compact() returns (compacted: nat)
      requires Valid()
      modifies this, index
      ensures Valid()
      ensures (State(), compacted) == DoCompact(old(State()))
      ensures log == old(log) + CallWrites(old(State()), config, StorageSpec.Compact)
    {
      ghost var was := Index();
      var write := Squeeze();
      compacted := count - write;
      if compacted > 0 {
        count := write;
        SaveIndex();
      } else {
        KeptAll(was);
        assert index[..count] == was;
      }
    }

    /** The loop of the compaction: the read place runs ahead of the write place in the same array. */
    method Squeeze() returns (write: nat)
      requires Valid()
      modifies index
      ensures write <= count && index[..write] == Kept(old(Index()))
    {
      hide Kept;
      ghost var was := Index();
      write := 0;
      for read := 0 to count
        invariant write <= read && |was| == count
        invariant index[..write] == Kept(was[..read])
        invariant forall j :: read <= j < count ==> index[j] == was[j]
      {
        KeptMore(was, read);
        if !index[read].deleted {
          ghost var before := index[..write];
          if write != read { index[write] := index[read]; }
          write := write + 1;
          assert index[..write] == before + [was[read]];
        }
      }
      assert was[..count] == was;
    }
  }

  /** The texts so far, and what the scan of the first i entries would add, are the whole scan. */
  predicate Scanned(s: seq<Entry>, files: Files, q: Query, now: U32, limit: nat, i: nat, out: seq<seq<Byte>>) {
    && i <= |s| && |out| <= limit
    && out + Scan(s[..i], files, q, now, limit - |out|) == Scan(s, files, q, now, limit)
  }

  lemma NoneScanned(s: seq<Entry>, files: Files, q: Query, now: U32, limit: nat)
    ensures Scanned(s, files, q, now, limit, |s|, [])
  {
    hide Scan;
    assert s[..|s|] == s;
  }

  lemma OneScanned(s: seq<Entry>, files: Files, q: Query, now: U32, limit: nat, i: nat, out: seq<seq<Byte>>)
    requires Scanned(s, files, q, now, limit, i, out) && i > 0 && |out| < limit
    ensures Scanned(s, files, q, now, limit, i - 1,
                    if Hit(files, q, now, s[i - 1]) then out + [Content(files, Name(s[i - 1]))] else out)
  {
    hide Hit, Content, Name;
    assert s[..i][..i - 1] == s[..i - 1];
  }

  lemma AllScanned(s: seq<Entry>, files: Files, q: Query, now: U32, limit: nat, i: nat, out: seq<seq<Byte>>)
    requires Scanned(s, files, q, now, limit, i, out) && (i == 0 || |out| == limit)
    ensures out == Scan(s, files, q, now, limit)
  {
  }

  /** An index of which nothing is dropped stays as it is. */
  lemma {:induction false} KeptAll(index: seq<Entry>)
    requires |Kept(index)| == |index|
    ensures Kept(index) == index
  {
    if index != [] { KeptAll(index[..|index| - 1]); }
  }

  lemma KeptMore(s: seq<Entry>, i: nat)
    requires i < |s|
    ensures Kept(s[..i + 1]) == if s[i].deleted then Kept(s[..i]) else Kept(s[..i]) + [s[i]]
  {
    assert s[..i + 1][..i] == s[..i];
    assert Kept(s[..i]) + [] == Kept(s[..i]);
  }

  /** An entry after the purge. */
  function Purged(e: Entry, now: U32): Entry { if Expired(e.expires, now) then Mark(e) else e }

  lemma NoneYet(s: seq<Entry>, now: U32)
    ensures Dead(s[..0], now) == {} && DeadCount(s[..0], now) == 0 && Unlinks(s[..0], now) == []
  {
  }

  lemma MarkTwice(e: Entry)
    ensures e.deleted ==> Mark(e) == e
  {
  }

  lemma DeadMore(s: seq<Entry>, i: nat, now: U32)
    requires i < |s|
    ensures var hit := !s[i].deleted && Expired(s[i].expires, now);
            && Dead(s[..i + 1], now) == Dead(s[..i], now) + (if hit then {Name(s[i])} else {})
            && DeadCount(s[..i + 1], now) == DeadCount(s[..i], now) + (if hit then 1 else 0)
            && Unlinks(s[..i + 1], now) == Unlinks(s[..i], now) + (if hit then [Unlink(Name(s[i]))] else [])
  {
    assert s[..i + 1][..i] == s[..i];
  }

  // ----- the chunks written so far

  lemma StartOf(k: nat)
    ensures ChunkStart(0) == 0 && ChunkStart(k) / CHUNK == k && ChunkStart(k + 1) == ChunkStart(k) + CHUNK
  {
  }

  lemma ChunkStartBelow(k: nat, n: nat)
    ensures ChunkStart(k) < n <==> k < ChunkCount(n)
  {
    ChunkBelow(k, n);
  }

  lemma ChunkIs(s: seq<Entry>, k: nat)
    requires ChunkStart(k) < |s|
    ensures ChunkOf(s, k) == s[ChunkStart(k)..ChunkStart(k) + Min(|s| - ChunkStart(k), CHUNK)]
  {
  }

  lemma PutTwo(d: Disk, v: Write, w: Write)
    ensures PutAll(d, [v, w]) == Put(Put(d, v), w)
  {
    assert [v, w] == [v] + [w];
    PutAllOne(d, v);
    PutAllSnoc(d, [v], w);
  }

  lemma PersistKeeps(st: State)
    ensures var t := Persist(st); t.index == st.index && t.next == st.next
  {
  }
}
