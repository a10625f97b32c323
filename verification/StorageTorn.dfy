/** Power cuts while the index is being written: flash then holds the beginning of the new index and the end of the
    old one. */
module StorageTorn {
  import opened Options
  import opened StorageSpec
  import opened StorageProofs
  import opened StorageWrites
  import opened StorageCuts

  /** Flash holds every chunk of the index that its counter announces, in full. */
  ghost predicate Sound(st: State, c: Config) {
    Counted(st.nvs) ==>
      var n, blobs := st.nvs.value.count.value, st.nvs.value.blobs;
      n <= c.capacity && forall k: nat :: ChunkStart(k) < n ==> k in blobs && |blobs[k]| == Min(CHUNK, n - ChunkStart(k))
  }

  /** Some but not all of the index has been written. */
  predicate Torn(st: State, c: Config, op: Op, w: nat) {
    SavesIndex(st, c, op) && |FileWrites(st, c, op)| < w < |CallWrites(st, c, op)|
  }

  /** How many blobs have been written. */
  function BlobsDone(st: State, c: Config, op: Op, w: nat): nat {
    var f := |FileWrites(st, c, op)|;
    if w >= f + 2 then w - f - 2 else 0
  }

  /** The new index in the chunks that have been written, what the old blobs say in the others. */
  function Mixed(stale: map<nat, seq<Entry>>, target: seq<Entry>, m: nat): (index: seq<Entry>)
    ensures |index| == |target|
    ensures forall j :: 0 <= j < |target| ==>
              index[j] == if j / CHUNK < m then target[j] else LoadedSlot(stale, |target|, j)
  {
    seq(|target|, j requires 0 <= j < |target| => if j / CHUNK < m then target[j] else LoadedSlot(stale, |target|, j))
  }

  lemma MixedSlot(stale: map<nat, seq<Entry>>, target: seq<Entry>, m: nat, j: nat)
    requires m <= ChunkCount(|target|) && j < |target|
    ensures LoadedSlot(Written(stale, target, m), |target|, j)
         == if j / CHUNK < m then target[j] else LoadedSlot(stale, |target|, j)
  {
    var k := j / CHUNK;
    if k < m {
      assert Written(stale, target, m)[k] == ChunkOf(target, k);
    }
  }

  lemma MixedLoaded(stale: map<nat, seq<Entry>>, target: seq<Entry>, m: nat)
    requires m <= ChunkCount(|target|)
    ensures Slots(Written(stale, target, m), |target|) == Mixed(stale, target, m)
  {
    hide Written, LoadedSlot, ChunkCount;
    forall j | 0 <= j < |target|
      ensures LoadedSlot(Written(stale, target, m), |target|, j)
           == if j / CHUNK < m then target[j] else LoadedSlot(stale, |target|, j)
    {
      MixedSlot(stale, target, m, j);
    }
  }

  /** The disk after the files and some of the index. */
  lemma TornDisk(st: State, c: Config, op: Op, w: nat)
    requires SavesIndex(st, c, op) && |FileWrites(st, c, op)| <= w <= |CallWrites(st, c, op)|
    ensures var t, f := Target(st, c, op), |FileWrites(st, c, op)|;
            PutAll(DiskOf(st), CallWrites(st, c, op)[..w]) ==
            PutAll(Disk(t.files, st.nvs), IndexWrites(t.index, t.next)[..w - f])
  {
    hide IndexWrites, Target, FileWrites, SavesIndex, PutAll;
    var t, ws := Target(st, c, op), FileWrites(st, c, op);
    var ix := IndexWrites(t.index, t.next);
    assert CallWrites(st, c, op)[..w] == ws + ix[..w - |ws|];
    PutAllAppend(DiskOf(st), ws, ix[..w - |ws|]);
    FilesWritten(st, c, op);
  }

  lemma MixedFromOld(stale: map<nat, seq<Entry>>, target: seq<Entry>)
    ensures Slots(stale, |target|) == Mixed(stale, target, 0)
  {
    hide LoadedSlot;
  }

  /** Only the first counter is written. */
  lemma CounterState(files: Files, nvs: Option<Nvs>, t: State, c: Config)
    requires Counted(nvs) && |t.index| <= c.capacity
    ensures var s := Started(PutAll(Disk(files, nvs), IndexWrites(t.index, t.next)[..1]), c);
            s.index == Mixed(nvs.value.blobs, t.index, 0) && s.files == files && s.next == LoadedNext(nvs)
  {
    hide PutAll, IndexWrites, Slots, Mixed;
    FirstCounter(Disk(files, nvs), t.index, t.next);
    MixedFromOld(nvs.value.blobs, t.index);
  }

  /** Both counters and some blobs are written. */
  lemma BlobState(files: Files, nvs: Option<Nvs>, t: State, c: Config, m: nat)
    requires m <= ChunkCount(|t.index|) && |t.index| <= c.capacity
    ensures var s := Started(PutAll(Disk(files, nvs), IndexWrites(t.index, t.next)[..2 + m]), c);
            && s.index == Mixed(Flash(Disk(files, nvs)).blobs, t.index, m)
            && s.files == files && s.next == t.next
  {
    hide PutAll, IndexWrites, Slots, Mixed, Written, ChunkCount;
    CountersAndBlobs(Disk(files, nvs), t.index, t.next, m);
    MixedLoaded(Flash(Disk(files, nvs)).blobs, t.index, m);
  }

  lemma TornBlobs(st: State, c: Config, op: Op, w: nat)
    requires Torn(st, c, op, w)
    ensures var f, m, k := |FileWrites(st, c, op)|, BlobsDone(st, c, op, w), ChunkCount(|Target(st, c, op).index|);
            if w == f + 1 then m == 0 else m < k && w - f == 2 + m
  {
    hide FileWrites, Target, SavesIndex, ChunkCount;
  }

  /** What the engine starts with after a cut while the index is written, from a store that had one in flash. */
  lemma TornState(st: State, c: Config, op: Op, w: nat)
    requires Torn(st, c, op, w) && Counted(st.nvs) && |Target(st, c, op).index| <= c.capacity
    ensures var s, t, m := CutState(st, c, op, w), Target(st, c, op), BlobsDone(st, c, op, w);
            && s.index == Mixed(st.nvs.value.blobs, t.index, m)
            && s.files == t.files
            && (s.next == t.next || s.next == LoadedNext(st.nvs))
  {
    hide PutAll, IndexWrites, FileWrites, Target, SavesIndex, Started, Mixed, CallWrites, ChunkCount;
    var t, f := Target(st, c, op), |FileWrites(st, c, op)|;
    TornDisk(st, c, op, w);
    TornBlobs(st, c, op, w);
    if w == f + 1 {
      CounterState(t.files, st.nvs, t, c);
    } else {
      BlobState(t.files, st.nvs, t, c, w - f - 2);
    }
  }

  /** The number that it starts with. */
  lemma TornNext(st: State, c: Config, op: Op, w: nat)
    requires Torn(st, c, op, w) && Counted(st.nvs) && |Target(st, c, op).index| <= c.capacity
    ensures CutState(st, c, op, w).next
         == if w == |FileWrites(st, c, op)| + 1 then LoadedNext(st.nvs) else Target(st, c, op).next
  {
    hide PutAll, IndexWrites, FileWrites, Target, SavesIndex, Started, Mixed, CallWrites, ChunkCount;
    var t, f := Target(st, c, op), |FileWrites(st, c, op)|;
    TornDisk(st, c, op, w);
    TornBlobs(st, c, op, w);
    if w == f + 1 {
      CounterState(t.files, st.nvs, t, c);
    } else {
      BlobState(t.files, st.nvs, t, c, w - f - 2);
    }
  }

  /** From a flash store that never held an index, a cut after the first counter starts afresh; after the second one
      every slot that is not written is blank. */
  lemma TornFirst(st: State, c: Config, op: Op, w: nat)
    requires Torn(st, c, op, w) && st.nvs.None? && |Target(st, c, op).index| <= c.capacity
    ensures var s, t, m := CutState(st, c, op, w), Target(st, c, op), BlobsDone(st, c, op, w);
            && s.index == (if w == |FileWrites(st, c, op)| + 1 then [] else Mixed(map[], t.index, m))
            && s.files == t.files
            && (w != |FileWrites(st, c, op)| + 1 ==> s.next == t.next)
  {
    hide PutAll, IndexWrites, FileWrites, Target, SavesIndex, Mixed, CallWrites, ChunkCount;
    var t, f := Target(st, c, op), |FileWrites(st, c, op)|;
    TornDisk(st, c, op, w);
    TornBlobs(st, c, op, w);
    if w == f + 1 {
      FirstCounter(Disk(t.files, st.nvs), t.index, t.next);
    } else {
      BlobState(t.files, st.nvs, t, c, w - f - 2);
    }
  }

  // ----- the old blobs

  /** A chunk that was written in full is read back whatever larger count is asked for. */
  lemma OldSlot(st: State, c: Config, n: nat, j: nat)
    requires Valid(st, c) && Sound(st, c) && Counted(st.nvs) && Saved(st, c) <= n && j < Saved(st, c)
    ensures LoadedSlot(st.nvs.value.blobs, n, j) == st.index[j]
  {
    var blobs, b := st.nvs.value.blobs, Saved(st, c);
    assert Loaded(st.nvs, c.capacity)[j] == LoadedSlot(blobs, b, j);
    assert st.index[..b][j] == st.index[j];
    var k := j / CHUNK;
    assert ChunkStart(k) <= j;
  }

  /** Flash ends with a chunk and has an older blob behind it. */
  predicate Leftover(st: State, c: Config)
    requires Counted(st.nvs)
  {
    Saved(st, c) % CHUNK == 0 && Saved(st, c) / CHUNK in st.nvs.value.blobs
  }

  /** Behind the old index there is nothing to read but what an earlier, longer one left there. */
  lemma BlankSlot(st: State, c: Config, n: nat, j: nat)
    requires Sound(st, c) && Counted(st.nvs) && Saved(st, c) <= j < n
    requires j / CHUNK == Saved(st, c) / CHUNK
    requires !Leftover(st, c)
    ensures LoadedSlot(st.nvs.value.blobs, n, j) == Blank()
  {
    var b, k := Saved(st, c), j / CHUNK;
    if b % CHUNK != 0 { assert ChunkStart(k) < b; }
  }

  /** Behind an old last chunk that is longer than the space for the new one there is nothing to read at all. */
  lemma LongChunk(st: State, c: Config, n: nat, j: nat)
    requires Sound(st, c) && Counted(st.nvs) && j < n < Saved(st, c) && j / CHUNK == n / CHUNK
    ensures LoadedSlot(st.nvs.value.blobs, n, j) == Blank()
  {
    var b, k := Saved(st, c), j / CHUNK;
    assert ChunkStart(k) <= j < b;
  }

  /** A chunk that the new count still asks for in full is read as it was. */
  lemma FullChunk(st: State, c: Config, n: nat, j: nat)
    requires Valid(st, c) && Sound(st, c) && Counted(st.nvs) && j < n <= Saved(st, c) && n % CHUNK == 0
    ensures LoadedSlot(st.nvs.value.blobs, n, j) == st.index[j]
  {
    var blobs, b := st.nvs.value.blobs, Saved(st, c);
    assert Loaded(st.nvs, c.capacity)[j] == LoadedSlot(blobs, b, j);
    assert st.index[..b][j] == st.index[j];
    ChunkWithin(j, n);
  }

  lemma ChunkWithin(j: nat, n: nat)
    requires j < n && n % CHUNK == 0
    ensures ChunkStart(j / CHUNK) <= j && ChunkStart(j / CHUNK) + CHUNK <= n
  {
  }

  // ----- calls that leave every entry in its slot

  predicate InPlace(op: Op) { op.Save? || op.Delete? || op.Purge? || op.Restart? }

  /** The call has marked this entry as deleted. */
  predicate Marked(st: State, t: State, j: nat) {
    j < |st.index| && j < |t.index| && !st.index[j].deleted && t.index[j].deleted
  }

  /** What such a call does to the entries and to their files. */
  predicate SlotBySlot(st: State, t: State) {
    && |st.index| <= |t.index|
    && (forall j :: 0 <= j < |st.index| ==> t.index[j] == st.index[j] || t.index[j] == Mark(st.index[j]))
    && (forall j :: 0 <= j < |st.index| && !st.index[j].deleted ==> (Name(st.index[j]) in t.files <==> !t.index[j].deleted))
  }

  lemma InPlaceTarget(st: State, c: Config, op: Op)
    requires Valid(st, c) && InPlace(op) && SavesIndex(st, c, op)
    ensures SlotBySlot(st, Target(st, c, op))
    ensures |Target(st, c, op).index| <= c.capacity
    ensures if op.Save? then |Target(st, c, op).index| == |st.index| + 1 && (|st.index| + 1) % 10 == 0
            else |Target(st, c, op).index| == |st.index|
  {
    hide Backed, UniqueLive, Name, Dead, Expired;
    match op
    case Save(e, now, opens) =>
    case Delete(id) =>
      var i := Lookup(st.index, id);
      forall j | 0 <= j < |st.index| && j != i ensures Name(st.index[j]) != Name(st.index[i]) {
        NamesDiffer(st.index, st.next, j, i);
      }
    case Purge(now) =>
      forall j | 0 <= j < |st.index| && !st.index[j].deleted
        ensures Name(st.index[j]) in Dead(st.index, now) <==> Expired(st.index[j].expires, now)
      {
        DeadIff(st.index, now, Name(st.index[j]));
        if !Expired(st.index[j].expires, now) { Survives(st.index, st.next, now, j); }
      }
    case Restart =>
  }

  /** At most nine entries were missing in flash. */
  predicate NearlyAll(b: nat, size: nat) { size / 10 * 10 <= b }

  /** Where flash was behind, what is not in it falls into the last chunk. */
  lemma LastChunk(b: nat, size: nat, n: nat, j: nat)
    requires NearlyAll(b, size) && b <= j < n && (n <= size || (n == size + 1 && n % 10 == 0))
    ensures j / CHUNK == b / CHUNK && b / CHUNK == ChunkCount(n) - 1
  {
    var d := (n - 1) / 10;
    assert d * 10 <= b < d * 10 + 10 && d * 10 <= j < d * 10 + 10 && d * 10 <= n - 1 < d * 10 + 10;
    DecadeChunk(d, b);
    DecadeChunk(d, j);
    DecadeChunk(d, n - 1);
  }

  /** Ten places that begin at a multiple of ten lie in one chunk. */
  lemma DecadeChunk(d: nat, j: nat)
    requires d * 10 <= j < d * 10 + 10
    ensures j / CHUNK == d / 5
  {
  }

  function Pick(written: bool, x: Entry, y: Entry): Entry { if written then x else y }

  /** A slot that flash lacks is blank, and lies in the last chunk. */
  lemma BehindSlot(st: State, c: Config, n: nat, j: nat)
    requires Sound(st, c) && Counted(st.nvs) && !Leftover(st, c) && NearlyAll(Saved(st, c), |st.index|)
    requires Saved(st, c) <= j < n && (n <= |st.index| || (n == |st.index| + 1 && n % 10 == 0))
    ensures LoadedSlot(st.nvs.value.blobs, n, j) == Blank() && j / CHUNK == ChunkCount(n) - 1
  {
    hide Sound, Saved, Leftover, LoadedSlot, Counted;
    LastChunk(Saved(st, c), |st.index|, n, j);
    hide ChunkCount;
    BlankSlot(st, c, n, j);
  }

  /** One slot after a torn call. */
  lemma TornSlot(st: State, c: Config, op: Op, w: nat, j: nat)
    requires Torn(st, c, op, w) && Counted(st.nvs) && j < |Target(st, c, op).index| <= c.capacity
    ensures |CutState(st, c, op, w).index| == |Target(st, c, op).index|
    ensures CutState(st, c, op, w).index[j]
         == Pick(j / CHUNK < BlobsDone(st, c, op, w), Target(st, c, op).index[j],
                 LoadedSlot(st.nvs.value.blobs, |Target(st, c, op).index|, j))
    ensures BlobsDone(st, c, op, w) < ChunkCount(|Target(st, c, op).index|)
  {
    TornState(st, c, op, w);
    TornBlobs(st, c, op, w);
    TornSome(st, c, op, w);
    hide CutState, LoadedSlot, Torn, BlobsDone, Target, SavesIndex, FileWrites, CallWrites;
  }

  lemma TornSome(st: State, c: Config, op: Op, w: nat)
    requires Torn(st, c, op, w) && Target(st, c, op).index != []
    ensures BlobsDone(st, c, op, w) < ChunkCount(|Target(st, c, op).index|)
  {
    TornBlobs(st, c, op, w);
    hide Target, FileWrites, CallWrites, SavesIndex, Torn;
  }

  /** Where flash is behind the new index, every entry that it lacks comes back blank. */
  lemma BehindBlank(st: State, c: Config, op: Op, w: nat, j: nat)
    requires Valid(st, c) && Sound(st, c) && Counted(st.nvs) && InPlace(op) && Torn(st, c, op, w)
    requires Saved(st, c) <= j < |Target(st, c, op).index| && !Leftover(st, c)
    ensures |CutState(st, c, op, w).index| == |Target(st, c, op).index| && CutState(st, c, op, w).index[j] == Blank()
  {
    InPlaceTarget(st, c, op);
    SavedMost(st, c);
    hide FileWrites, CallWrites, SavesIndex, Target, CutState, Sound, LoadedSlot, SlotBySlot, Valid, Saved, Counted, BlobsDone,
      NearlyAll, Leftover, ChunkCount, Blank, Torn;
    BehindSlot(st, c, |Target(st, c, op).index|, j);
    TornSlot(st, c, op, w, j);
  }

  lemma SavedMost(st: State, c: Config)
    requires Valid(st, c)
    ensures NearlyAll(Saved(st, c), |st.index|)
  {
    hide Loaded, Increasing, UniqueLive, Stored;
  }

  /** Then the index is out of order, unless that is its only entry. */
  lemma BehindInvalid(st: State, c: Config, op: Op, w: nat)
    requires Valid(st, c) && Sound(st, c) && Counted(st.nvs) && InPlace(op) && Torn(st, c, op, w) && !Leftover(st, c)
    requires Saved(st, c) < |Target(st, c, op).index|
    ensures Valid(CutState(st, c, op, w), c) <==> LoneBlank(st, c, op, w)
  {
    TornSaves(st, c, op, w);
    hide *;
    var b, n := Saved(st, c), |Target(st, c, op).index|;
    var j := if b > 0 then b else n - 1;
    TargetSize(st, c, op);
    BehindBlank(st, c, op, w, j);
    if n > 1 {
      BlankInvalid(CutState(st, c, op, w), c, j);
      NotLone(st, c, op, w);
    } else {
      TargetNext(st, c, op);
      LoneIff(st, c, op, w);
    }
  }

  lemma TornSaves(st: State, c: Config, op: Op, w: nat)
    requires Torn(st, c, op, w)
    ensures SavesIndex(st, c, op) && w <= |CallWrites(st, c, op)|
  {
  }

  /** How many entries a call leaves that writes the index. */
  lemma TargetSize(st: State, c: Config, op: Op)
    requires Valid(st, c) && SavesIndex(st, c, op)
    ensures |Target(st, c, op).index| <= c.capacity
    ensures if op.Save? then |Target(st, c, op).index| == |st.index| + 1 && (|st.index| + 1) % 10 == 0
            else |Target(st, c, op).index| <= |st.index|
  {
    hide Increasing, UniqueLive, Stored, Backed, Dead, DeadCount, Persist;
  }

  lemma TargetNext(st: State, c: Config, op: Op)
    requires Valid(st, c) && st.index != [] && !op.Save?
    ensures Target(st, c, op).next > 0
  {
    hide Backed, UniqueLive, Stored, Buried, Dead, Kept;
    assert st.index[0].file < st.next;
  }

  lemma BlankInvalid(s: State, c: Config, j: nat)
    requires 0 < j < |s.index| && s.index[j] == Blank()
    ensures !Valid(s, c)
  {
    assert !(s.index[j - 1].file < s.index[j].file);
  }

  /** The new index has one entry and it comes back blank, which is valid if the file of a blank entry happens to exist
      and a number has been given. */
  predicate LoneBlank(st: State, c: Config, op: Op, w: nat) {
    && |Target(st, c, op).index| == 1 != Saved(st, c)
    && (w == |FileWrites(st, c, op)| + 1 ==> LoadedNext(st.nvs) > 0)
    && Name(Blank()) in Target(st, c, op).files
  }

  lemma NotLone(st: State, c: Config, op: Op, w: nat)
    requires |Target(st, c, op).index| != 1
    ensures !LoneBlank(st, c, op, w)
  {
  }

  lemma LoneBlankIff(d: Disk, c: Config)
    requires Started(d, c).index == [Blank()]
    ensures Valid(Started(d, c), c) <==> Started(d, c).next > 0 && Name(Blank()) in d.files
  {
    StartedIff(d, c);
    var t := Started(d, c);
    assert t.files == d.files;
    hide Started, Valid, Name;
    assert t.index[0] == Blank() && Blank().file == 0 && !Blank().deleted;
  }

  lemma LoneIff(st: State, c: Config, op: Op, w: nat)
    requires Torn(st, c, op, w) && Counted(st.nvs) && |Target(st, c, op).index| == 1 <= c.capacity
    requires Saved(st, c) != 1 && Target(st, c, op).next > 0
    requires CutState(st, c, op, w).index == [Blank()]
    ensures Valid(CutState(st, c, op, w), c) <==> LoneBlank(st, c, op, w)
  {
    LoneBlankIff(PutAll(DiskOf(st), CallWrites(st, c, op)[..w]), c);
    TornState(st, c, op, w);
    TornNext(st, c, op, w);
    hide FileWrites, CallWrites, SavesIndex, Target, PutAll, Saved, Torn, Valid, Name, Mixed;
  }

  /** Where flash is up to date, a torn index is the old one with the marks of the chunks that have been written. */
  lemma CurrentMixed(st: State, c: Config, op: Op, w: nat, j: nat)
    requires Valid(st, c) && Sound(st, c) && Counted(st.nvs) && InPlace(op) && Torn(st, c, op, w)
    requires Saved(st, c) == |Target(st, c, op).index| && j < |st.index|
    ensures |CutState(st, c, op, w).index| == |st.index| == |Target(st, c, op).index|
    ensures CutState(st, c, op, w).index[j]
         == Pick(j / CHUNK < BlobsDone(st, c, op, w), Target(st, c, op).index[j], st.index[j])
  {
    InPlaceTarget(st, c, op);
    hide FileWrites, CallWrites, SavesIndex, Target, CutState, Sound, LoadedSlot, SlotBySlot, Valid, Saved, Counted, BlobsDone,
      ChunkCount, Torn;
    TornSlot(st, c, op, w, j);
    OldSlot(st, c, |Target(st, c, op).index|, j);
  }

  /** The old index with the new entries of the first chunks. */
  predicate MixedFrom(s: seq<Entry>, t: seq<Entry>, was: seq<Entry>, m: nat) {
    |s| == |t| == |was| && forall j :: 0 <= j < |s| ==> s[j] == Pick(j / CHUNK < m, t[j], was[j])
  }

  /** Marks change neither the order nor who is who. */
  lemma MarksKeepOrder(st: State, t: State, s: State, next: nat, m: nat)
    requires Increasing(st.index, next) && UniqueLive(st.index) && SlotBySlot(st, t) && next <= s.next
    requires MixedFrom(s.index, t.index, st.index, m)
    ensures Increasing(s.index, s.next) && UniqueLive(s.index)
  {
    hide Name;
    assert forall j :: 0 <= j < |s.index| ==> s.index[j].file == st.index[j].file && s.index[j].id == st.index[j].id;
    assert forall j :: 0 <= j < |s.index| && !s.index[j].deleted ==> !st.index[j].deleted;
  }

  /** The old index with the marks of some chunks, over the files after the call, has its files exactly if all the marks
      are there. */
  lemma MarkedIff(st: State, t: State, s: State, m: nat)
    requires Stored(st.index, st.files) && SlotBySlot(st, t) && s.files == t.files
    requires MixedFrom(s.index, t.index, st.index, m)
    ensures Stored(s.index, s.files) <==> forall j: nat :: Marked(st, t, j) ==> j / CHUNK < m
  {
    hide Name;
    if Stored(s.index, s.files) {
      forall j: nat | Marked(st, t, j) ensures j / CHUNK < m {
        assert s.index[j] == Pick(j / CHUNK < m, t.index[j], st.index[j]);
      }
    }
    if forall j: nat :: Marked(st, t, j) ==> j / CHUNK < m {
      forall j | 0 <= j < |s.index| && !s.index[j].deleted ensures Name(s.index[j]) in s.files {
        assert Marked(st, t, j) || Name(st.index[j]) in t.files;
      }
    }
  }

  lemma CurrentIff(st: State, c: Config, op: Op, w: nat)
    requires Valid(st, c) && Sound(st, c) && Counted(st.nvs) && InPlace(op) && Torn(st, c, op, w)
    requires Saved(st, c) == |Target(st, c, op).index|
    ensures Valid(CutState(st, c, op, w), c) <==>
              forall j: nat :: Marked(st, Target(st, c, op), j) ==> j / CHUNK < BlobsDone(st, c, op, w)
  {
    var t, s, m := Target(st, c, op), CutState(st, c, op, w), BlobsDone(st, c, op, w);
    InPlaceTarget(st, c, op);
    TornState(st, c, op, w);
    StartedIff(PutAll(DiskOf(st), CallWrites(st, c, op)[..w]), c);
    NextNotSmaller(st, c, op);
    SavedIndex(st, c, st.files);
    hide FileWrites, CallWrites, SavesIndex, Target, PutAll, Started, Sound, LoadedSlot, SlotBySlot, Marked, Valid, Mixed,
      Increasing, UniqueLive, Stored, LoadedNext, BlobsDone;
    forall j: nat | j < |st.index| ensures s.index[j] == Pick(j / CHUNK < m, t.index[j], st.index[j]) {
      CurrentMixed(st, c, op, w, j);
    }
    assert MixedFrom(s.index, t.index, st.index, m);
    hide MixedFrom;
    SavedAll(st, c);
    MarksKeepOrder(st, t, s, LoadedNext(st.nvs), m);
    MarkedIff(st, t, s, m);
  }

  lemma SavedAll(st: State, c: Config)
    requires Valid(st, c) && Saved(st, c) == |st.index|
    ensures Increasing(st.index, LoadedNext(st.nvs)) && UniqueLive(st.index) && Stored(st.index, st.files)
    ensures LoadedNext(st.nvs) <= st.next
  {
    hide Loaded, LoadedNext;
    var b := Loaded(st.nvs, c.capacity);
    assert b == st.index[..|b|] == st.index;
  }

  lemma NextNotSmaller(st: State, c: Config, op: Op)
    requires Valid(st, c) && InPlace(op) && |Target(st, c, op).index| == |st.index|
    ensures LoadedNext(st.nvs) <= Target(st, c, op).next
  {
    hide Increasing, UniqueLive, Stored, Loaded, Buried, Dead, LoadedNext;
  }

  /** A cut while a call that moves no entry writes the index leaves a valid store if and only if flash held the whole
      index before and the chunks of all entries that the call marks have been written; a lone blank entry aside. */
  lemma TornInPlaceIff(st: State, c: Config, op: Op, w: nat)
    requires Valid(st, c) && Sound(st, c) && Counted(st.nvs) && InPlace(op) && Torn(st, c, op, w)
    requires Saved(st, c) == |Target(st, c, op).index| || !Leftover(st, c)
    ensures Valid(CutState(st, c, op, w), c) <==>
              || LoneBlank(st, c, op, w)
              || (&& Saved(st, c) == |Target(st, c, op).index|
                  && forall j: nat :: Marked(st, Target(st, c, op), j) ==> j / CHUNK < BlobsDone(st, c, op, w))
  {
    InPlaceTarget(st, c, op);
    SavedIndex(st, c, st.files);
    if Saved(st, c) == |Target(st, c, op).index| { CurrentNotLone(st, c, op, w); }
    hide FileWrites, CallWrites, SavesIndex, Target, Sound, SlotBySlot, Valid, BlobsDone, CutState, Marked, Torn, LoneBlank, Leftover;
    if Saved(st, c) == |Target(st, c, op).index| {
      CurrentIff(st, c, op, w);
    } else {
      BehindInvalid(st, c, op, w);
    }
  }

  lemma CurrentNotLone(st: State, c: Config, op: Op, w: nat)
    requires Saved(st, c) == |Target(st, c, op).index|
    ensures !LoneBlank(st, c, op, w)
  {
  }

  /** The very first writing of an index: a cut right after its first counter leaves a fresh start, which is valid; any
      later one leaves nothing but blank entries. */
  lemma TornFirstIff(st: State, c: Config, op: Op, w: nat)
    requires Valid(st, c) && st.nvs.None? && Torn(st, c, op, w)
    ensures Valid(CutState(st, c, op, w), c) <==>
              w == |FileWrites(st, c, op)| + 1 || |Target(st, c, op).index| == 0 || LoneBlank(st, c, op, w)
  {
    var s, t := CutState(st, c, op, w), Target(st, c, op);
    FirstTarget(st, c, op);
    TornFirst(st, c, op, w);
    TornBlobs(st, c, op, w);
    StartedIff(PutAll(DiskOf(st), CallWrites(st, c, op)[..w]), c);
    hide FileWrites, CallWrites, SavesIndex, PutAll, Started, Valid, LoadedNext, CutState, LoneBlank, Torn, Name;
    if w != |FileWrites(st, c, op)| + 1 && |t.index| > 1 {
      assert s.index[1] == Blank();
      BlankInvalid(s, c, 1);
      NotLone(st, c, op, w);
    } else if w != |FileWrites(st, c, op)| + 1 && |t.index| == 1 {
      assert s.index == [Blank()];
      FirstLone(st, c, op, w);
    }
  }

  lemma FirstTarget(st: State, c: Config, op: Op)
    requires Valid(st, c) && st.nvs.None? && SavesIndex(st, c, op)
    ensures |Target(st, c, op).index| <= Min(10, c.capacity)
    ensures |Target(st, c, op).index| == 1 ==> Target(st, c, op).next > 0
  {
    NoneSaved(st, c);
    TargetSize(st, c, op);
    hide Valid, Target, SavesIndex;
    if |Target(st, c, op).index| == 1 { TargetNext(st, c, op); }
  }

  lemma NoneSaved(st: State, c: Config)
    requires Valid(st, c) && st.nvs.None?
    ensures |st.index| <= 9
  {
    hide Increasing, UniqueLive, Stored;
  }

  lemma FirstLone(st: State, c: Config, op: Op, w: nat)
    requires Torn(st, c, op, w) && st.nvs.None? && w != |FileWrites(st, c, op)| + 1
    requires |Target(st, c, op).index| == 1 <= c.capacity && Target(st, c, op).next > 0
    requires CutState(st, c, op, w).index == [Blank()]
    ensures Valid(CutState(st, c, op, w), c) <==> LoneBlank(st, c, op, w)
  {
    LoneBlankIff(PutAll(DiskOf(st), CallWrites(st, c, op)[..w]), c);
    TornFirst(st, c, op, w);
    hide FileWrites, CallWrites, SavesIndex, Target, PutAll, Torn, Valid, Name, Mixed, LoadedSlot;
    assert Loaded(st.nvs, c.capacity) == [];
  }
}
