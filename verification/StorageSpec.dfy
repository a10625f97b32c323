/** The relay's event store as a value: its index, its files and the copy of the index in flash,
    beside the plain list of events that it stands for. */
module StorageSpec {
  import opened Options
  import opened Octets
  import opened Widths

  const CHUNK: nat := 50
  const MAX_EVENT_SIZE: nat := 8192

  type U32 = n: nat | n < TWO32
  type U16 = n: nat | n < 0x1_0000

  type Id = s: seq<Byte> | |s| == 32 witness seq(32, _ => 0)
  type Author = s: seq<Byte> | |s| == 4 witness [0, 0, 0, 0]

  datatype Entry = Entry(id: Id, createdAt: U32, expires: U32, file: U32, kind: U16, author: Author, deleted: bool)

  /** A zeroed entry, as calloc leaves it. */
  function Blank(): Entry { Entry(seq(32, _ => 0), 0, 0, 0, 0, [0, 0, 0, 0], false) }

  /** A file is named by half of the event's id and a number. */
  datatype FileName = FileName(prefix: seq<Byte>, number: U32)

  function Name(e: Entry): FileName { FileName(e.id[..16], e.file) }

  type Files = map<FileName, seq<Byte>>

  /** The bytes of a file; a missing one reads like an empty one. */
  function Content(files: Files, name: FileName): seq<Byte> { if name in files then files[name] else [] }

  /** The keys of the flash store, as far as they have been written: the counters and one blob for every fifty entries. */
  datatype Nvs = Nvs(count: Option<nat>, next: Option<U32>, blobs: map<nat, seq<Entry>>)

  datatype State = State(index: seq<Entry>, next: U32, files: Files, nvs: Option<Nvs>)

  /** Fixed when the engine starts. */
  datatype Config = Config(capacity: nat, ttl: U32)

  // ----- the copy of the index in flash

  function Min(a: int, b: int): int { if a <= b then a else b }

  function ChunkStart(k: nat): nat { k * CHUNK }

  /** save_index_to_nvs: blobs beyond the last chunk stay as they were. */
  function Persist(st: State): State {
    var stale := if st.nvs.Some? then st.nvs.value.blobs else map[];
    var n := |st.index|;
    st.(nvs := Some(Nvs(Some(n), Some(st.next), stale + (map k: nat | k < n && ChunkStart(k) < n :: ChunkOf(st.index, k)))))
  }

  function ChunkOf(index: seq<Entry>, k: nat): seq<Entry>
    requires ChunkStart(k) < |index|
  {
    index[ChunkStart(k)..Min(ChunkStart(k) + CHUNK, |index|)]
  }

  /** One slot after loading: a blob longer than the space asked for is not read at all. */
  function LoadedSlot(blobs: map<nat, seq<Entry>>, count: nat, i: nat): Entry
    requires i < count
  {
    var k := i / CHUNK;
    if k in blobs && |blobs[k]| <= Min(CHUNK, count - ChunkStart(k)) && i - ChunkStart(k) < |blobs[k]|
    then blobs[k][i - ChunkStart(k)]
    else Blank()
  }

  /** Both counters are there; where one is missing, loading fails and the engine starts afresh. */
  predicate Counted(nvs: Option<Nvs>) { nvs.Some? && nvs.value.count.Some? && nvs.value.next.Some? }

  /** The slots that a count and the blobs give. */
  function Slots(blobs: map<nat, seq<Entry>>, count: nat): (index: seq<Entry>)
    ensures |index| == count
  {
    seq(count, i requires 0 <= i < count => LoadedSlot(blobs, count, i))
  }

  /** load_index_from_nvs */
  function Loaded(nvs: Option<Nvs>, capacity: nat): seq<Entry> {
    if Counted(nvs) then Slots(nvs.value.blobs, Min(nvs.value.count.value, capacity)) else []
  }

  function LoadedNext(nvs: Option<Nvs>): U32 { if Counted(nvs) then nvs.value.next.value else 0 }

  // ----- the operations

  /** What save takes from the event's text, and the text. */
  datatype Event = Event(id: Id, author: Author, createdAt: nat, kind: int, json: seq<Byte>)

  datatype Query = Query(kind: int, author: Option<Author>, limit: int)

  datatype Status = Done | Full | Duplicate | NotFound | Io

  datatype Op =
    | Save(event: Event, now: U32, opens: bool)
    | Delete(id: Id)
    | Purge(now: U32)
    | Compact
    | Exists(id: Id)
    | Find(query: Query, now: U32)
    | Restart    // destroy, then init
    | PowerCut   // init after a crash between two calls; StorageWrites has the ones within a call

  datatype Outcome = Result(status: Status) | Number(n: nat) | Answer(yes: bool) | Texts(texts: seq<seq<Byte>>)

  /** The first live entry with the id, or the length. */
  function Lookup(index: seq<Entry>, id: Id): (i: nat)
    ensures i <= |index| && (i < |index| ==> index[i].id == id && !index[i].deleted)
    ensures forall j :: 0 <= j < i ==> !(index[j].id == id && !index[j].deleted)
  {
    if index == [] then 0 else if index[0].id == id && !index[0].deleted then 0 else 1 + Lookup(index[1..], id)
  }

  predicate Expired(expires: U32, now: U32) { 0 < expires < now }

  function Limit(limit: int): (n: nat)
    ensures 1 <= n <= 500
  {
    if limit > 500 then 500 else if limit <= 0 then 100 else limit
  }

  predicate Readable(json: seq<Byte>) { 0 < |json| <= MAX_EVENT_SIZE }

  function NewEntry(e: Event, now: U32, ttl: U32, file: U32): Entry {
    Entry(e.id, e.createdAt % TWO32, (now + ttl) % TWO32, file, e.kind % 0x1_0000, e.author, false)
  }

  function DoSave(st: State, c: Config, e: Event, now: U32, opens: bool): (State, Status) {
    if Lookup(st.index, e.id) < |st.index| then (st, Duplicate)
    else if |st.index| >= c.capacity then (st, Full)
    else if !opens then (st, Io)
    else
      var n := NewEntry(e, now, c.ttl, st.next);
      var st' := State(st.index + [n], (st.next + 1) % TWO32, st.files[Name(n) := e.json], st.nvs);
      (if |st'.index| % 10 == 0 then Persist(st') else st', Done)
  }

  /** Why an entry is marked as deleted. */
  datatype Cause = WithId(id: Id) | ExpiredAt(now: U32)

  predicate Hits(c: Cause, id: Id, expires: U32) {
    match c
    case WithId(i) => id == i
    case ExpiredAt(now) => Expired(expires, now)
  }

  function Mark(e: Entry): Entry { e.(deleted := true) }

  function DoDelete(st: State, id: Id): (State, Status) {
    var i := Lookup(st.index, id);
    if i == |st.index| then (st, NotFound)
    else (Persist(st.(index := st.index[i := Mark(st.index[i])], files := st.files - {Name(st.index[i])})), Done)
  }

  /** The index with every expired entry marked. */
  function Buried(index: seq<Entry>, now: U32): (r: seq<Entry>)
    ensures |r| == |index|
    ensures forall i :: 0 <= i < |index| ==> r[i] == if Expired(index[i].expires, now) then Mark(index[i]) else index[i]
  {
    if index == [] then []
    else
      var last := index[|index| - 1];
      Buried(index[..|index| - 1], now) + [if Expired(last.expires, now) then Mark(last) else last]
  }

  /** The files of the live entries that are expired. */
  function Dead(index: seq<Entry>, now: U32): set<FileName> {
    if index == [] then {}
    else
      var last := index[|index| - 1];
      Dead(index[..|index| - 1], now) + if !last.deleted && Expired(last.expires, now) then {Name(last)} else {}
  }

  function DeadCount(index: seq<Entry>, now: U32): nat {
    if index == [] then 0
    else
      var last := index[|index| - 1];
      DeadCount(index[..|index| - 1], now) + if !last.deleted && Expired(last.expires, now) then 1 else 0
  }

  function DoPurge(st: State, now: U32): (State, nat) {
    var n := DeadCount(st.index, now);
    var st' := st.(index := Buried(st.index, now), files := st.files - Dead(st.index, now));
    (if n > 0 then Persist(st') else st', n)
  }

  /** The entries that are not marked, in order. */
  function Kept(index: seq<Entry>): (r: seq<Entry>)
    ensures |r| <= |index|
  {
    if index == [] then []
    else
      var last := index[|index| - 1];
      Kept(index[..|index| - 1]) + if last.deleted then [] else [last]
  }

  function DoCompact(st: State): (State, nat) {
    var n := |st.index| - |Kept(st.index)|;
    (if n > 0 then Persist(st.(index := Kept(st.index))) else st, n)
  }

  predicate Selects(q: Query, kind: U16, author: Author) {
    && (q.kind > 0 ==> kind == q.kind)
    && (q.author.Some? ==> author == q.author.value)
  }

  predicate Hit(files: Files, q: Query, now: U32, e: Entry) {
    !e.deleted && !Expired(e.expires, now) && Selects(q, e.kind, e.author) && Readable(Content(files, Name(e)))
  }

  /** The scan from the newest entry down, while room is left. */
  function Scan(index: seq<Entry>, files: Files, q: Query, now: U32, room: nat): seq<seq<Byte>> {
    if index == [] || room == 0 then []
    else
      var init, last := index[..|index| - 1], index[|index| - 1];
      if Hit(files, q, now, last) then [Content(files, Name(last))] + Scan(init, files, q, now, room - 1)
      else Scan(init, files, q, now, room)
  }

  /** init: the index comes from flash, the files are those on the disk. */
  function Boot(st: State, c: Config): State {
    st.(index := Loaded(st.nvs, c.capacity), next := LoadedNext(st.nvs))
  }

  function Step(st: State, c: Config, op: Op): (State, Outcome) {
    match op
    case Save(e, now, opens) => var r := DoSave(st, c, e, now, opens); (r.0, Result(r.1))
    case Delete(id) => var r := DoDelete(st, id); (r.0, Result(r.1))
    case Purge(now) => var r := DoPurge(st, now); (r.0, Number(r.1))
    case Compact => var r := DoCompact(st); (r.0, Number(r.1))
    case Exists(id) => (st, Answer(Lookup(st.index, id) < |st.index|))
    case Find(q, now) => (st, Texts(Scan(st.index, st.files, q, now, Limit(q.limit))))
    case Restart => (Boot(Persist(st), c), Result(Done))
    case PowerCut => (Boot(st, c), Result(Done))
  }

  function Empty(): State { State([], 0, map[], None) }

  // ----- the plain list

  datatype Record = Record(id: Id, author: Author, kind: U16, createdAt: U32, expires: U32, json: seq<Byte>)

  /** The live events, oldest first, and the number of index slots in use; and how many of both a crash would leave. */
  datatype Shelf = Shelf(live: seq<Record>, used: nat, safe: nat, safeUsed: nat)

  function RecordOf(e: Entry, files: Files): Record {
    Record(e.id, e.author, e.kind, e.createdAt, e.expires, Content(files, Name(e)))
  }

  function Records(index: seq<Entry>, files: Files): seq<Record> {
    if index == [] then []
    else
      var last := index[|index| - 1];
      Records(index[..|index| - 1], files) + if last.deleted then [] else [RecordOf(last, files)]
  }

  function ShelfOf(st: State, c: Config): Shelf {
    var saved := Loaded(st.nvs, c.capacity);
    Shelf(Records(st.index, st.files), |st.index|, |Records(saved, st.files)|, |saved|)
  }

  predicate HasId(rs: seq<Record>, id: Id) { exists i :: 0 <= i < |rs| && rs[i].id == id }

  /** The records that the cause does not hit, in order. */
  function Without(rs: seq<Record>, c: Cause): seq<Record> {
    if rs == [] then []
    else
      var last := rs[|rs| - 1];
      Without(rs[..|rs| - 1], c) + if Hits(c, last.id, last.expires) then [] else [last]
  }

  /** All matching texts, the newest first. */
  function Matching(rs: seq<Record>, q: Query, now: U32): seq<seq<Byte>> {
    if rs == [] then []
    else
      var last := rs[|rs| - 1];
      (if !Expired(last.expires, now) && Selects(q, last.kind, last.author) && Readable(last.json) then [last.json] else [])
      + Matching(rs[..|rs| - 1], q, now)
  }

  function Take<T>(s: seq<T>, n: nat): seq<T> { s[..Min(n, |s|)] }

  /** The index has been written to flash: nothing would be lost. */
  function Checkpoint(sh: Shelf): Shelf { sh.(safe := |sh.live|, safeUsed := sh.used) }

  /** What each operation means on the plain list. */
  ghost function ShelfStep(sh: Shelf, c: Config, op: Op): (Shelf, Outcome) {
    match op
    case Save(e, now, opens) =>
      if HasId(sh.live, e.id) then (sh, Result(Duplicate))
      else if sh.used >= c.capacity then (sh, Result(Full))
      else if !opens then (sh, Result(Io))
      else
        var r := Record(e.id, e.author, e.kind % 0x1_0000, e.createdAt % TWO32, (now + c.ttl) % TWO32, e.json);
        var more := sh.(live := sh.live + [r], used := sh.used + 1);
        (if more.used % 10 == 0 then Checkpoint(more) else more, Result(Done))
    case Delete(id) =>
      if HasId(sh.live, id) then (Checkpoint(sh.(live := Without(sh.live, WithId(id)))), Result(Done))
      else (sh, Result(NotFound))
    case Purge(now) =>
      var live := Without(sh.live, ExpiredAt(now));
      if |live| < |sh.live| then (Checkpoint(sh.(live := live)), Number(|sh.live| - |live|)) else (sh, Number(0))
    case Compact =>
      if |sh.live| < sh.used then (Checkpoint(sh.(used := |sh.live|)), Number(sh.used - |sh.live|)) else (sh, Number(0))
    case Exists(id) => (sh, Answer(HasId(sh.live, id)))
    case Find(q, now) => (sh, Texts(Take(Matching(sh.live, q, now), Limit(q.limit))))
    case Restart => (Checkpoint(sh), Result(Done))
    case PowerCut => (sh.(live := Take(sh.live, sh.safe), used := sh.safeUsed), Result(Done))
  }
}
