/** The event store agrees with a plain list of events in every run. */
module StorageProofs {
  import opened Options
  import opened StorageSpec
  import opened Widths

  // ----- what every run keeps

  predicate Increasing(index: seq<Entry>, next: nat) {
    && (forall i, j :: 0 <= i < j < |index| ==> index[i].file < index[j].file)
    && (forall i :: 0 <= i < |index| ==> index[i].file < next)
  }

  predicate UniqueLive(index: seq<Entry>) {
    forall i, j :: 0 <= i < j < |index| && !index[i].deleted && !index[j].deleted ==> index[i].id != index[j].id
  }

  /** Every live entry has its file. */
  predicate Stored(index: seq<Entry>, files: Files) {
    forall i :: 0 <= i < |index| && !index[i].deleted ==> Name(index[i]) in files
  }

  /** What flash would give back is a beginning of the index that lacks at most nine entries. */
  predicate Backed(st: State, c: Config) {
    var b := Loaded(st.nvs, c.capacity);
    && |b| <= |st.index|
    && b == st.index[..|b|]
    && |st.index| / 10 * 10 <= |b|
    && LoadedNext(st.nvs) <= st.next
    && Increasing(b, LoadedNext(st.nvs))
  }

  predicate Valid(st: State, c: Config) {
    && |st.index| <= c.capacity
    && Increasing(st.index, st.next)
    && UniqueLive(st.index)
    && Stored(st.index, st.files)
    && Backed(st, c)
  }

  /** No file without a live entry. */
  ghost predicate NoOrphans(st: State) {
    forall name :: name in st.files ==> exists i :: 0 <= i < |st.index| && !st.index[i].deleted && Name(st.index[i]) == name
  }

  // ----- the copy in flash

  /** Saving the index in chunks of fifty and loading it gives the same index. */
  lemma PersistLoaded(st: State, capacity: nat)
    requires |st.index| <= capacity
    ensures Loaded(Persist(st).nvs, capacity) == st.index
    ensures LoadedNext(Persist(st).nvs) == st.next
  {
    hide LoadedSlot, ChunkOf, Persist;
    PersistedCount(st);
    var nvs := Persist(st).nvs;
    forall i | 0 <= i < |st.index| ensures LoadedSlot(nvs.value.blobs, |st.index|, i) == st.index[i] {
      PersistedSlot(st, i);
    }
  }

  lemma PersistedCount(st: State)
    ensures Counted(Persist(st).nvs)
    ensures Persist(st).nvs.value.count == Some(|st.index|) && Persist(st).nvs.value.next == Some(st.next)
  {
    hide ChunkOf;
  }

  lemma PersistedSlot(st: State, i: nat)
    requires i < |st.index|
    ensures Counted(Persist(st).nvs)
    ensures LoadedSlot(Persist(st).nvs.value.blobs, |st.index|, i) == st.index[i]
  {
    var k := i / CHUNK;
    assert ChunkStart(k) <= i < ChunkStart(k) + CHUNK;
    assert Persist(st).nvs.value.blobs[k] == ChunkOf(st.index, k);
  }

  lemma PersistValid(st: State, c: Config)
    requires |st.index| <= c.capacity && Increasing(st.index, st.next)
    ensures Backed(Persist(st), c)
  {
    PersistLoaded(st, c.capacity);
  }

  /** Anything done to the files and the index is safe once the index is saved. */
  lemma PersistedValid(st: State, c: Config)
    requires |st.index| <= c.capacity && Increasing(st.index, st.next) && UniqueLive(st.index) && Stored(st.index, st.files)
    ensures Valid(Persist(st), c)
  {
    PersistValid(st, c);
  }

  // ----- files

  /** Live entries of one index never share a file. */
  lemma NamesDiffer(index: seq<Entry>, next: nat, i: nat, j: nat)
    requires Increasing(index, next) && i < |index| && j < |index| && i != j
    ensures Name(index[i]) != Name(index[j])
  {
    assert index[if i < j then i else j].file < index[if i < j then j else i].file;
  }

  lemma {:induction false} RecordsFrame(index: seq<Entry>, f: Files, g: Files)
    requires forall i :: 0 <= i < |index| && !index[i].deleted ==> Content(f, Name(index[i])) == Content(g, Name(index[i]))
    ensures Records(index, f) == Records(index, g)
  {
    hide Content, Name;
    if index != [] {
      var init := index[..|index| - 1];
      assert forall i :: 0 <= i < |init| ==> init[i] == index[i];
      RecordsFrame(init, f, g);
    }
  }

  /** What may happen to one entry and its file when a cause strikes: it is marked if the cause hits it, else untouched. */
  predicate Struck(x: Entry, y: Entry, f: Files, g: Files, c: Cause) {
    && (y == x || y == Mark(x))
    && (y.deleted <==> x.deleted || Hits(c, x.id, x.expires))
    && (!y.deleted ==> Content(f, Name(x)) == Content(g, Name(x)))
  }

  lemma {:induction false} RecordsMarked(a: seq<Entry>, b: seq<Entry>, f: Files, g: Files, c: Cause)
    requires |a| == |b| && forall i :: 0 <= i < |a| ==> Struck(a[i], b[i], f, g, c)
    ensures Records(b, g) == Without(Records(a, f), c)
    ensures |Without(Records(a, f), c)| <= |Records(a, f)|
  {
    hide Records, Without, RecordOf, Hits, Struck;
    if a == [] {
      NoRecords(f, g, c);
    } else {
      var a', b', x, y := a[..|a| - 1], b[..|b| - 1], a[|a| - 1], b[|b| - 1];
      assert a == a' + [x] && b == b' + [y];
      assert forall i :: 0 <= i < |a'| ==> a'[i] == a[i] && b'[i] == b[i];
      RecordsMarked(a', b', f, g, c);
      StruckRecord(x, y, f, g, c);
      RecordsSnoc(a', x, f);
      RecordsSnoc(b', y, g);
      WithoutSnoc(Records(a', f), RecordOf(x, f), c);
    }
  }

  lemma NoRecords(f: Files, g: Files, c: Cause)
    ensures Records([], f) == Records([], g) == Without([], c) == []
  {
  }

  lemma StruckRecord(x: Entry, y: Entry, f: Files, g: Files, c: Cause)
    requires Struck(x, y, f, g, c)
    ensures y.deleted <==> x.deleted || Hits(c, RecordOf(x, f).id, RecordOf(x, f).expires)
    ensures !y.deleted ==> RecordOf(y, g) == RecordOf(x, f)
  {
  }

  lemma WithoutSnoc(rs: seq<Record>, r: Record, c: Cause)
    ensures Without(rs + [r], c) == if Hits(c, r.id, r.expires) then Without(rs, c) else Without(rs, c) + [r]
  {
    assert (rs + [r])[..|rs|] == rs;
    assert Without(rs, c) + [] == Without(rs, c);
  }

  lemma {:induction false} RecordsKept(index: seq<Entry>, f: Files)
    ensures Records(Kept(index), f) == Records(index, f)
    ensures |Records(index, f)| == |Kept(index)|
  {
    if index != [] {
      var init, last := index[..|index| - 1], index[|index| - 1];
      RecordsKept(init, f);
      if !last.deleted {
        assert (Kept(init) + [last])[..|Kept(init)|] == Kept(init);
      } else {
        assert Kept(index) == Kept(init);
        assert Records(index, f) == Records(init, f);
      }
    }
  }

  /** A live entry is found exactly when its record is on the list. */
  lemma {:induction false} LookupIff(index: seq<Entry>, f: Files, id: Id)
    ensures Lookup(index, id) < |index| <==> HasId(Records(index, f), id)
  {
    if index != [] {
      var init, last := index[..|index| - 1], index[|index| - 1];
      LookupIff(init, f, id);
      LookupInit(index, id);
      var rs, all := Records(init, f), Records(index, f);
      assert forall i :: 0 <= i < |rs| ==> all[i] == rs[i];
      if HasId(rs, id) {
        var i :| 0 <= i < |rs| && rs[i].id == id;
        assert all[i].id == id;
      }
      if !last.deleted { assert all[|rs|].id == last.id; }
      if HasId(all, id) {
        var i :| 0 <= i < |all| && all[i].id == id;
        assert i < |rs| ==> rs[i].id == id;
      }
    }
  }

  lemma LookupInit(index: seq<Entry>, id: Id)
    requires index != []
    ensures var init, last := index[..|index| - 1], index[|index| - 1];
            Lookup(index, id) < |index| <==> Lookup(init, id) < |init| || (last.id == id && !last.deleted)
  {
    var init := index[..|index| - 1];
    var i, j := Lookup(index, id), Lookup(init, id);
    assert forall k :: 0 <= k < |init| ==> init[k] == index[k];
    if i < |init| { assert init[i].id == id; }
    if j < |init| { assert index[j].id == id; }
  }

  lemma RecordsSnoc(index: seq<Entry>, e: Entry, f: Files)
    ensures Records(index + [e], f) == if e.deleted then Records(index, f) else Records(index, f) + [RecordOf(e, f)]
  {
    hide RecordOf;
    assert (index + [e])[..|index|] == index;
    assert Records(index, f) + [] == Records(index, f);
  }

  lemma MatchingSnoc(rs: seq<Record>, r: Record, q: Query, now: U32)
    ensures Matching(rs + [r], q, now) ==
            (if !Expired(r.expires, now) && Selects(q, r.kind, r.author) && Readable(r.json) then [r.json] else [])
            + Matching(rs, q, now)
  {
    hide Expired, Selects, Readable;
    assert (rs + [r])[..|rs|] == rs;
  }

  /** The newest entry's text heads the matching ones if the entry is hit. */
  lemma MatchingEntry(index: seq<Entry>, e: Entry, f: Files, q: Query, now: U32)
    ensures Matching(Records(index + [e], f), q, now) ==
            (if Hit(f, q, now, e) then [Content(f, Name(e))] else []) + Matching(Records(index, f), q, now)
  {
    hide Records, Matching, Content, Name, Expired, Selects, Readable;
    RecordsSnoc(index, e, f);
    MatchingSnoc(Records(index, f), RecordOf(e, f), q, now);
    assert [] + Matching(Records(index, f), q, now) == Matching(Records(index, f), q, now);
  }

  /** The bounded scan gives the first of all the matching texts. */
  lemma {:induction false} ScanIs(index: seq<Entry>, f: Files, q: Query, now: U32, room: nat)
    ensures Scan(index, f, q, now, room) == Take(Matching(Records(index, f), q, now), room)
  {
    hide Records, Matching, Hit, Content, Name, Take;
    if index == [] || room == 0 {
      NothingTaken(index, f, q, now, room);
    } else {
      var init, last := index[..|index| - 1], index[|index| - 1];
      var ms := Matching(Records(init, f), q, now);
      assert index == init + [last];
      MatchingEntry(init, last, f, q, now);
      if Hit(f, q, now, last) {
        ScanIs(init, f, q, now, room - 1);
        TakeMore(Content(f, Name(last)), ms, room);
      } else {
        ScanIs(init, f, q, now, room);
        assert [] + ms == ms;
      }
    }
  }

  lemma NothingTaken(index: seq<Entry>, f: Files, q: Query, now: U32, room: nat)
    requires index == [] || room == 0
    ensures Take(Matching(Records(index, f), q, now), room) == []
  {
  }

  lemma TakeMore<T>(x: T, s: seq<T>, n: nat)
    requires n > 0
    ensures Take([x] + s, n) == [x] + Take(s, n - 1)
  {
  }

  // ----- every operation keeps the store valid

  /** The entry and the file that save adds. */
  function Added(st: State, c: Config, e: Event, now: U32): State {
    var n := NewEntry(e, now, c.ttl, st.next);
    State(st.index + [n], (st.next + 1) % TWO32, st.files[Name(n) := e.json], st.nvs)
  }

  lemma AddedValid(st: State, c: Config, e: Event, now: U32)
    requires Valid(st, c) && st.next < TWO32 - 1 && |st.index| < c.capacity && Lookup(st.index, e.id) == |st.index|
    ensures var t := Added(st, c, e, now);
            |t.index| <= c.capacity && Increasing(t.index, t.next) && UniqueLive(t.index) && Stored(t.index, t.files)
    ensures |st.index + [NewEntry(e, now, c.ttl, st.next)]| % 10 != 0 ==> Backed(Added(st, c, e, now), c)
  {
    hide Persist, Loaded, LoadedNext;
    var t := Added(st, c, e, now);
    assert forall i :: 0 <= i < |st.index| ==> t.index[i] == st.index[i];
    var b := Loaded(st.nvs, c.capacity);
    assert t.index[..|b|] == st.index[..|b|];
  }

  lemma SaveValid(st: State, c: Config, e: Event, now: U32, opens: bool)
    requires Valid(st, c) && st.next < TWO32 - 1
    ensures Valid(DoSave(st, c, e, now, opens).0, c)
    ensures DoSave(st, c, e, now, opens).0.next <= st.next + 1
  {
    hide Increasing, UniqueLive, Stored, Backed, Loaded, LoadedNext;
    if Lookup(st.index, e.id) == |st.index| && |st.index| < c.capacity && opens {
      AddedValid(st, c, e, now);
      PersistedValid(Added(st, c, e, now), c);
    }
  }

  /** The state after one entry's removal, before it is saved. */
  function Removed(st: State, i: nat): State
    requires i < |st.index|
  {
    st.(index := st.index[i := Mark(st.index[i])], files := st.files - {Name(st.index[i])})
  }

  lemma RemovedValid(st: State, c: Config, i: nat)
    requires Valid(st, c) && i < |st.index|
    ensures var t := Removed(st, i); Increasing(t.index, t.next) && UniqueLive(t.index) && Stored(t.index, t.files)
  {
    hide Backed;
    var t := Removed(st, i);
    assert forall k :: 0 <= k < |t.index| && k != i ==> t.index[k] == st.index[k];
    forall k | 0 <= k < |t.index| && !t.index[k].deleted ensures Name(t.index[k]) in t.files {
      NamesDiffer(st.index, st.next, k, i);
    }
  }

  lemma DeleteValid(st: State, c: Config, id: Id)
    requires Valid(st, c)
    ensures Valid(DoDelete(st, id).0, c)
  {
    hide Increasing, UniqueLive, Stored, Backed;
    var i := Lookup(st.index, id);
    if i < |st.index| {
      RemovedValid(st, c, i);
      PersistedValid(Removed(st, i), c);
    }
  }

  /** The files of expired live entries, told by index. */
  lemma {:induction false} DeadIff(index: seq<Entry>, now: U32, name: FileName)
    ensures name in Dead(index, now) <==>
              exists i :: 0 <= i < |index| && !index[i].deleted && Expired(index[i].expires, now) && Name(index[i]) == name
  {
    hide Expired, Name;
    if index != [] {
      var init, last := index[..|index| - 1], index[|index| - 1];
      DeadIff(init, now, name);
      assert forall i :: 0 <= i < |init| ==> init[i] == index[i];
      if i :| 0 <= i < |init| && !init[i].deleted && Expired(init[i].expires, now) && Name(init[i]) == name {
        assert !index[i].deleted && Expired(index[i].expires, now) && Name(index[i]) == name;
      }
      if !last.deleted && Expired(last.expires, now) { assert index[|index| - 1] == last; }
      if i :| 0 <= i < |index| && !index[i].deleted && Expired(index[i].expires, now) && Name(index[i]) == name {
        assert i < |init| ==> init[i] == index[i];
      }
    }
  }

  lemma Survives(index: seq<Entry>, next: nat, now: U32, i: nat)
    requires Increasing(index, next) && i < |index| && !Expired(index[i].expires, now)
    ensures Name(index[i]) !in Dead(index, now)
  {
    DeadIff(index, now, Name(index[i]));
    if k :| 0 <= k < |index| && !index[k].deleted && Expired(index[k].expires, now) && Name(index[k]) == Name(index[i]) {
      NamesDiffer(index, next, k, i);
    }
  }

  lemma {:induction false} NoneDead(index: seq<Entry>, now: U32)
    requires DeadCount(index, now) == 0
    ensures Buried(index, now) == index && Dead(index, now) == {}
  {
    if index != [] { NoneDead(index[..|index| - 1], now); }
  }

  lemma PurgedValid(st: State, c: Config, now: U32)
    requires Valid(st, c)
    ensures var index, files := Buried(st.index, now), st.files - Dead(st.index, now);
            Increasing(index, st.next) && UniqueLive(index) && Stored(index, files)
  {
    hide Backed, Expired, Dead, Name;
    var index, files := Buried(st.index, now), st.files - Dead(st.index, now);
    forall k | 0 <= k < |index| && !index[k].deleted ensures Name(index[k]) in files {
      assert index[k] == st.index[k];
      Survives(st.index, st.next, now, k);
    }
  }

  lemma PurgeValid(st: State, c: Config, now: U32)
    requires Valid(st, c)
    ensures Valid(DoPurge(st, now).0, c)
  {
    hide Increasing, UniqueLive, Stored, Backed, Dead, Buried, DeadCount;
    var t := st.(index := Buried(st.index, now), files := st.files - Dead(st.index, now));
    if DeadCount(st.index, now) > 0 {
      PurgedValid(st, c, now);
      PersistedValid(t, c);
    } else {
      NoneDead(st.index, now);
      assert t.files == st.files;
      assert t == st;
    }
  }

  lemma {:induction false} KeptMembers(index: seq<Entry>)
    ensures forall e :: e in Kept(index) <==> e in index && !e.deleted
  {
    if index != [] {
      var init, last := index[..|index| - 1], index[|index| - 1];
      assert index == init + [last];
      KeptMembers(init);
    }
  }

  lemma {:induction false} KeptOrder(index: seq<Entry>, next: nat)
    requires Increasing(index, next) && UniqueLive(index)
    ensures Increasing(Kept(index), next) && UniqueLive(Kept(index))
  {
    if index != [] {
      var init, last := index[..|index| - 1], index[|index| - 1];
      assert index == init + [last];
      assert forall i :: 0 <= i < |init| ==> init[i] == index[i];
      KeptOrder(init, next);
      KeptMembers(init);
      KeptBelow(init, last, next);
      if last.deleted { assert Kept(index) == Kept(init); } else { OrderSnoc(Kept(init), last, next); }
    }
  }

  lemma OrderSnoc(s: seq<Entry>, e: Entry, next: nat)
    requires Increasing(s, next) && UniqueLive(s) && e.file < next
    requires forall i :: 0 <= i < |s| ==> s[i].file < e.file && s[i].id != e.id
    ensures Increasing(s + [e], next) && UniqueLive(s + [e])
  {
  }

  lemma KeptBelow(init: seq<Entry>, last: Entry, next: nat)
    requires Increasing(init + [last], next) && UniqueLive(init + [last])
    requires forall i :: 0 <= i < |Kept(init)| ==> Kept(init)[i] in init && !Kept(init)[i].deleted
    ensures forall i :: 0 <= i < |Kept(init)| ==>
              Kept(init)[i].file < last.file && (!last.deleted ==> Kept(init)[i].id != last.id)
  {
    var index := init + [last];
    forall i | 0 <= i < |Kept(init)|
      ensures Kept(init)[i].file < last.file && (!last.deleted ==> Kept(init)[i].id != last.id)
    {
      var j :| 0 <= j < |init| && init[j] == Kept(init)[i];
      assert index[j] == init[j] && index[|init|] == last;
    }
  }

  lemma CompactedValid(st: State, c: Config)
    requires Valid(st, c)
    ensures var index := Kept(st.index); Increasing(index, st.next) && UniqueLive(index) && Stored(index, st.files)
  {
    hide Backed, Name;
    var index := Kept(st.index);
    KeptOrder(st.index, st.next);
    KeptMembers(st.index);
    forall i | 0 <= i < |index| ensures Name(index[i]) in st.files {
      var e := index[i];
      assert e in index;
      var k :| 0 <= k < |st.index| && st.index[k] == e;
    }
  }

  lemma CompactValid(st: State, c: Config)
    requires Valid(st, c)
    ensures Valid(DoCompact(st).0, c)
  {
    hide Increasing, UniqueLive, Stored, Backed;
    if |Kept(st.index)| < |st.index| {
      CompactedValid(st, c);
      PersistedValid(st.(index := Kept(st.index)), c);
    }
  }

  lemma BootValid(st: State, c: Config)
    requires Valid(st, c)
    ensures Valid(Boot(st, c), c)
  {
    hide Loaded, LoadedNext;
    var t := Boot(st, c);
    assert forall i :: 0 <= i < |t.index| ==> t.index[i] == st.index[i];
  }

  lemma RestartIs(st: State, c: Config)
    requires |st.index| <= c.capacity
    ensures Boot(Persist(st), c) == Persist(st)
  {
    PersistLoaded(st, c.capacity);
  }

  /** Does the operation write a file? */
  predicate Writes(st: State, c: Config, op: Op) { op.Save? && DoSave(st, c, op.event, op.now, op.opens).1 == Done }

  /** Every operation keeps the store valid, except the write of file number 2^32 - 1. */
  lemma StepValid(st: State, c: Config, op: Op)
    requires Valid(st, c) && (op.Save? ==> st.next < TWO32 - 1)
    ensures Valid(Step(st, c, op).0, c)
    ensures Step(st, c, op).0.next <= st.next + if op.Save? then 1 else 0
  {
    hide DoSave, Increasing, UniqueLive, Stored, Backed, Lookup, Scan;
    match op
    case Save(e, now, opens) => SaveValid(st, c, e, now, opens);
    case Delete(id) => DeleteValid(st, c, id);
    case Purge(now) => PurgeValid(st, c, now);
    case Compact => CompactValid(st, c);
    case Exists(_) =>
    case Find(_, _) =>
    case Restart => RestartIs(st, c); PersistedValid(st, c);
    case PowerCut => BootValid(st, c); BootNext(st, c);
  }

  /** That write starts the file numbers again and so breaks their order, whatever the index held. */
  lemma LastNumberWraps(st: State, c: Config, op: Op)
    requires Valid(st, c) && Writes(st, c, op) && st.next == TWO32 - 1
    ensures !Valid(Step(st, c, op).0, c)
  {
    hide UniqueLive, Stored, Backed, Lookup;
    var t := Step(st, c, op).0;
    assert t.next == 0 && |t.index| > 0;
    assert t.index[|t.index| - 1].file == TWO32 - 1;
  }

  /** A save that writes nothing changes nothing. */
  lemma NotWritten(st: State, c: Config, op: Op)
    requires op.Save? && !Writes(st, c, op)
    ensures Step(st, c, op).0 == st
  {
  }

  /** From a valid store every operation leads to a valid one, unless it writes the last file number. */
  lemma StepValidIff(st: State, c: Config, op: Op)
    requires Valid(st, c)
    ensures Valid(Step(st, c, op).0, c) <==> !(Writes(st, c, op) && st.next == TWO32 - 1)
  {
    hide Valid, Step, Writes;
    if op.Save? && st.next == TWO32 - 1 {
      if Writes(st, c, op) { LastNumberWraps(st, c, op); } else { NotWritten(st, c, op); }
    } else {
      StepValid(st, c, op);
      OnlySavesWrite(st, c, op);
    }
  }

  lemma OnlySavesWrite(st: State, c: Config, op: Op)
    ensures Writes(st, c, op) ==> op.Save?
  {
  }

  lemma BootNext(st: State, c: Config)
    requires Valid(st, c)
    ensures Boot(st, c).next <= st.next
  {
  }
}
