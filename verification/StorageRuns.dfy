/** Whole runs of the event store, told by the plain list of its events. */
module StorageRuns {
  import opened Options
  import opened Octets
  import opened StorageSpec
  import opened StorageProofs
  import opened Widths

  // ----- one step refines a step of the plain list

  lemma SaveRefines(st: State, c: Config, e: Event, now: U32, opens: bool)
    requires Valid(st, c)
    ensures var r := DoSave(st, c, e, now, opens);
            (ShelfOf(r.0, c), Result(r.1)) == ShelfStep(ShelfOf(st, c), c, Save(e, now, opens))
  {
    hide Valid, Persist, Name, Content, Records, Loaded;
    LookupIff(st.index, st.files, e.id);
    if Lookup(st.index, e.id) == |st.index| && |st.index| < c.capacity && opens {
      AddedRecords(st, c, e, now);
      AddedSafe(st, c, e, now);
      PersistShelf(Added(st, c, e, now), c);
    }
  }

  /** Once the index is in flash, a crash would lose nothing. */
  lemma PersistShelf(st: State, c: Config)
    requires |st.index| <= c.capacity
    ensures ShelfOf(Persist(st), c) == Checkpoint(ShelfOf(st, c))
  {
    hide Records;
    PersistLoaded(st, c.capacity);
    PersistSame(st);
  }

  /** A save that is not followed by writing the index leaves the safe part as it was. */
  lemma AddedSafe(st: State, c: Config, e: Event, now: U32)
    requires Valid(st, c)
    ensures var saved := Loaded(st.nvs, c.capacity);
            Records(saved, Added(st, c, e, now).files) == Records(saved, st.files)
  {
    hide Loaded, UniqueLive, Stored;
    var saved := Loaded(st.nvs, c.capacity);
    var t := Added(st, c, e, now);
    forall i | 0 <= i < |saved| ensures Content(t.files, Name(saved[i])) == Content(st.files, Name(saved[i])) {
      assert saved[i] == st.index[i] && st.index[i].file < st.next;
    }
    RecordsFrame(saved, t.files, st.files);
  }

  lemma PersistSame(st: State)
    ensures Persist(st).index == st.index && Persist(st).files == st.files && Persist(st).next == st.next
  {
  }

  lemma AddedRecords(st: State, c: Config, e: Event, now: U32)
    requires Valid(st, c)
    ensures var t := Added(st, c, e, now);
            Records(t.index, t.files) == Records(st.index, st.files)
              + [Record(e.id, e.author, e.kind % 0x1_0000, e.createdAt % TWO32, (now + c.ttl) % TWO32, e.json)]
  {
    hide Backed, UniqueLive, Stored, Records;
    var t := Added(st, c, e, now);
    var n := NewEntry(e, now, c.ttl, st.next);
    RecordsSnoc(st.index, n, t.files);
    forall i | 0 <= i < |st.index| ensures Content(t.files, Name(st.index[i])) == Content(st.files, Name(st.index[i])) {
      assert st.index[i].file < st.next;
    }
    RecordsFrame(st.index, t.files, st.files);
  }

  lemma DeleteRefines(st: State, c: Config, id: Id)
    requires Valid(st, c)
    ensures var r := DoDelete(st, id); (ShelfOf(r.0, c), Result(r.1)) == ShelfStep(ShelfOf(st, c), c, Delete(id))
  {
    hide Backed, UniqueLive, Increasing, Stored, Persist, Loaded, Records;
    var i := Lookup(st.index, id);
    LookupIff(st.index, st.files, id);
    if i < |st.index| {
      PersistShelf(Removed(st, i), c);
      RemovedRecords(st, c, id);
    }
  }

  lemma RemovedRecords(st: State, c: Config, id: Id)
    requires Valid(st, c) && Lookup(st.index, id) < |st.index|
    ensures var t := Removed(st, Lookup(st.index, id));
            Records(t.index, t.files) == Without(Records(st.index, st.files), WithId(id))
  {
    hide Backed, Stored, Increasing, Name, Content;
    var i := Lookup(st.index, id);
    var t := Removed(st, i);
    forall k | 0 <= k < |st.index| ensures Struck(st.index[k], t.index[k], st.files, t.files, WithId(id)) {
      if k != i {
        NamesDiffer(st.index, st.next, k, i);
        OtherContent(st.files, {Name(st.index[i])}, Name(st.index[k]));
        if !st.index[k].deleted {
          assert st.index[if i < k then i else k].id != st.index[if i < k then k else i].id;
        }
      }
    }
    RecordsMarked(st.index, t.index, st.files, t.files, WithId(id));
  }

  lemma OtherContent(files: Files, gone: set<FileName>, name: FileName)
    requires name !in gone
    ensures Content(files - gone, name) == Content(files, name)
  {
  }

  lemma PurgedRecords(st: State, c: Config, now: U32)
    requires Valid(st, c)
    ensures Records(Buried(st.index, now), st.files - Dead(st.index, now)) == Without(Records(st.index, st.files), ExpiredAt(now))
  {
    hide Backed, Stored, Increasing, UniqueLive, Name, Content, Dead, Expired;
    var b, g := Buried(st.index, now), st.files - Dead(st.index, now);
    forall k | 0 <= k < |st.index| ensures Struck(st.index[k], b[k], st.files, g, ExpiredAt(now)) {
      if !Expired(st.index[k].expires, now) {
        Survives(st.index, st.next, now, k);
        OtherContent(st.files, Dead(st.index, now), Name(st.index[k]));
      }
    }
    RecordsMarked(st.index, b, st.files, g, ExpiredAt(now));
  }

  lemma {:induction false} DeadCounts(index: seq<Entry>, f: Files, now: U32)
    ensures |Without(Records(index, f), ExpiredAt(now))| + DeadCount(index, now) == |Records(index, f)|
  {
    hide Expired, Content;
    if index != [] {
      var init, last := index[..|index| - 1], index[|index| - 1];
      DeadCounts(init, f, now);
      WithoutSnoc(Records(init, f), RecordOf(last, f), ExpiredAt(now));
      if last.deleted { assert Records(index, f) == Records(init, f); }
    }
  }

  lemma PurgeRefines(st: State, c: Config, now: U32)
    requires Valid(st, c)
    ensures var r := DoPurge(st, now); (ShelfOf(r.0, c), Number(r.1)) == ShelfStep(ShelfOf(st, c), c, Purge(now))
  {
    hide Backed, Increasing, UniqueLive, Stored, Persist, Dead, Records, Buried, DeadCount, Loaded;
    PurgedRecords(st, c, now);
    DeadCounts(st.index, st.files, now);
    if DeadCount(st.index, now) > 0 {
      PersistShelf(st.(index := Buried(st.index, now), files := st.files - Dead(st.index, now)), c);
    } else {
      NoneDead(st.index, now);
      assert st.files - Dead(st.index, now) == st.files;
    }
  }

  lemma CompactRefines(st: State, c: Config)
    requires Valid(st, c)
    ensures var r := DoCompact(st); (ShelfOf(r.0, c), Number(r.1)) == ShelfStep(ShelfOf(st, c), c, Compact)
  {
    hide Backed, Increasing, UniqueLive, Stored, Persist, Records, Loaded;
    RecordsKept(st.index, st.files);
    PersistShelf(st.(index := Kept(st.index)), c);
  }

  /** A crash leaves the records whose entries are in flash, which are the first ones. */
  lemma CrashRefines(st: State, c: Config)
    requires Valid(st, c)
    ensures ShelfOf(Boot(st, c), c) == ShelfStep(ShelfOf(st, c), c, PowerCut).0
  {
    hide Increasing, UniqueLive, Stored, Records, Loaded;
    RecordsPrefix(st.index, |Loaded(st.nvs, c.capacity)|, st.files);
  }

  lemma RestartRefines(st: State, c: Config)
    requires Valid(st, c)
    ensures ShelfOf(Boot(Persist(st), c), c) == ShelfStep(ShelfOf(st, c), c, Restart).0
  {
    hide Increasing, UniqueLive, Stored, Backed, Records, Persist;
    RestartIs(st, c);
    PersistShelf(st, c);
  }

  /** Every operation, and a crash between two of them, does to the store what it does to the plain list, with the same
      answer. */
  lemma StepRefines(st: State, c: Config, op: Op)
    requires Valid(st, c)
    ensures var r := Step(st, c, op); (ShelfOf(r.0, c), r.1) == ShelfStep(ShelfOf(st, c), c, op)
  {
    hide DoSave, DoDelete, DoPurge, DoCompact, Records, Loaded, Lookup, Scan, Matching, Persist, Without, Valid, Boot;
    match op
    case Save(e, now, opens) => SaveRefines(st, c, e, now, opens);
    case Delete(id) => DeleteRefines(st, c, id);
    case Purge(now) => PurgeRefines(st, c, now);
    case Compact => CompactRefines(st, c);
    case Exists(id) => LookupIff(st.index, st.files, id);
    case Find(q, now) => ScanIs(st.index, st.files, q, now, Limit(q.limit));
    case Restart => RestartRefines(st, c);
    case PowerCut => CrashRefines(st, c);
  }

  // ----- runs

  function Run(c: Config, ops: seq<Op>): State {
    if ops == [] then Empty() else Step(Run(c, ops[..|ops| - 1]), c, ops[|ops| - 1]).0
  }

  function Saves(ops: seq<Op>): nat {
    if ops == [] then 0 else Saves(ops[..|ops| - 1]) + if ops[|ops| - 1].Save? then 1 else 0
  }

  /** After every run of whole calls and crashes between them the store is valid. */
  lemma {:induction false} EveryRunValid(c: Config, ops: seq<Op>)
    requires Saves(ops) < TWO32
    ensures Valid(Run(c, ops), c)
    ensures Run(c, ops).next <= Saves(ops)
  {
    hide Valid, Step;
    if ops == [] {
      EmptyValid(c);
    } else {
      EveryRunValid(c, ops[..|ops| - 1]);
      StepValid(Run(c, ops[..|ops| - 1]), c, ops[|ops| - 1]);
    }
  }

  lemma EmptyValid(c: Config)
    ensures Valid(Empty(), c)
  {
    assert Loaded(None, c.capacity) == [];
  }

  ghost function ShelfRun(c: Config, ops: seq<Op>): Shelf {
    if ops == [] then Shelf([], 0, 0, 0) else ShelfStep(ShelfRun(c, ops[..|ops| - 1]), c, ops[|ops| - 1]).0
  }

  /** Any run of whole calls and crashes between them: the store stands for the plain list after the same operations. */
  lemma {:induction false} RunRefines(c: Config, ops: seq<Op>)
    requires Saves(ops) < TWO32
    ensures ShelfOf(Run(c, ops), c) == ShelfRun(c, ops)
  {
    hide Valid, Step, ShelfStep;
    if ops == [] {
      EmptyShelf(c);
    } else {
      var init := ops[..|ops| - 1];
      RunRefines(c, init);
      EveryRunValid(c, init);
      StepRefines(Run(c, init), c, ops[|ops| - 1]);
    }
  }

  lemma EmptyShelf(c: Config)
    ensures ShelfOf(Empty(), c) == Shelf([], 0, 0, 0)
  {
    assert Loaded(None, c.capacity) == [];
  }

  /** And the next operation gives the answer that the plain list gives. */
  lemma AnswersRefine(c: Config, ops: seq<Op>, op: Op)
    requires Saves(ops) < TWO32
    ensures Step(Run(c, ops), c, op).1 == ShelfStep(ShelfRun(c, ops), c, op).1
  {
    hide Valid, Step, ShelfStep;
    RunRefines(c, ops);
    EveryRunValid(c, ops);
    StepRefines(Run(c, ops), c, op);
  }

  // ----- crashes

  /** After any such run, a crash between two calls loses the records of at most the last nine saves, and nothing
      else. */
  lemma CrashLosesFewest(c: Config, ops: seq<Op>)
    requires Saves(ops) < TWO32
    ensures var st, t := Run(c, ops), Run(c, ops + [PowerCut]);
            && |t.index| <= |st.index| <= |t.index| + 9
            && t.index == st.index[..|t.index|]
            && Records(t.index, t.files) <= Records(st.index, st.files)
            && |Records(st.index, st.files)| <= |Records(t.index, t.files)| + 9
  {
    var st := Run(c, ops);
    assert (ops + [PowerCut])[..|ops|] == ops;
    assert Run(c, ops + [PowerCut]) == Boot(st, c);
    EveryRunValid(c, ops);
    hide Run, UniqueLive, Stored, Increasing, Loaded, Records;
    RecordsPrefix(st.index, |Boot(st, c).index|, st.files);
  }

  lemma {:induction false} RecordsPrefix(index: seq<Entry>, n: nat, f: Files)
    requires n <= |index|
    ensures Records(index[..n], f) <= Records(index, f)
    ensures |Records(index, f)| <= |Records(index[..n], f)| + |index| - n
  {
    hide RecordOf;
    if n < |index| {
      var init := index[..|index| - 1];
      RecordsPrefix(init, n, f);
      assert init[..n] == index[..n];
    } else {
      assert index[..n] == index;
    }
  }

  // ----- the tenth save

  /** One save: it adds an entry or changes nothing, and writes the index when there are ten, twenty and so on. */
  lemma SaveStep(st: State, c: Config, e: Event, now: U32, opens: bool)
    ensures var t := Step(st, c, Save(e, now, opens)).0;
            || t == st
            || (&& |t.index| == |st.index| + 1
                && (|t.index| % 10 != 0 ==> t.nvs == st.nvs)
                && (|t.index| % 10 == 0 ==> Loaded(t.nvs, c.capacity) == t.index))
  {
    hide Lookup, Name, Persist, Loaded;
    if Lookup(st.index, e.id) == |st.index| && |st.index| < c.capacity && opens {
      PersistLoaded(Added(st, c, e, now), c.capacity);
      PersistSame(Added(st, c, e, now));
    }
  }

  lemma {:induction false} OnlySaves(c: Config, ops: seq<Op>)
    requires forall op :: op in ops ==> op.Save?
    ensures var st := Run(c, ops);
            && (|st.index| < 10 ==> st.nvs == None)
            && (|st.index| == 10 ==> Loaded(st.nvs, c.capacity) == st.index)
  {
    hide Step, Loaded;
    if ops != [] {
      var init, last := ops[..|ops| - 1], ops[|ops| - 1];
      OnlySaves(c, init);
      assert last in ops;
      SaveStep(Run(c, init), c, last.event, last.now, last.opens);
    }
  }

  lemma CrashIs(c: Config, ops: seq<Op>)
    ensures Run(c, ops + [PowerCut]).index == Loaded(Run(c, ops).nvs, c.capacity)
    ensures Loaded(None, c.capacity) == []
  {
    assert (ops + [PowerCut])[..|ops|] == ops;
  }

  /** Flash sees the index for the first time at the tenth entry: a crash after saves that have left up to nine leaves
      none, and one after saves that have left ten leaves them all. */
  lemma TenthSave(c: Config, ops: seq<Op>)
    requires forall op :: op in ops ==> op.Save?
    ensures var st, t := Run(c, ops), Run(c, ops + [PowerCut]);
            && (|st.index| < 10 ==> t.index == [])
            && (|st.index| == 10 ==> t.index == st.index)
  {
    hide Run, Loaded;
    OnlySaves(c, ops);
    CrashIs(c, ops);
  }

  // ----- files

  /** As long as there is no crash, the disk holds the live events' files and no others. */
  lemma {:induction false} NoOrphansInRun(c: Config, ops: seq<Op>)
    requires Saves(ops) < TWO32 && forall op :: op in ops ==> !op.PowerCut?
    ensures NoOrphans(Run(c, ops))
  {
    hide Valid, Step, NoOrphans;
    if ops == [] {
      assert NoOrphans(Empty()) by { NoFiles(); }
    } else {
      var init := ops[..|ops| - 1];
      NoOrphansInRun(c, init);
      EveryRunValid(c, init);
      assert ops[|ops| - 1] in ops;
      NoOrphansStep(Run(c, init), c, ops[|ops| - 1]);
    }
  }

  lemma NoFiles()
    ensures NoOrphans(Empty())
  {
  }

  lemma NoOrphansStep(st: State, c: Config, op: Op)
    requires Valid(st, c) && NoOrphans(st) && !op.PowerCut?
    ensures NoOrphans(Step(st, c, op).0)
  {
    hide Valid, NoOrphans, DoSave, DoDelete, DoPurge, DoCompact, Lookup, Scan;
    match op
    case Save(e, now, opens) => SaveNoOrphans(st, c, e, now, opens);
    case Delete(id) => DeleteNoOrphans(st, id);
    case Purge(now) => PurgeNoOrphans(st, now);
    case Compact => CompactNoOrphans(st);
    case Exists(_) =>
    case Find(_, _) =>
    case Restart => RestartNoOrphans(st, c);
  }

  lemma SameNoOrphans(st: State, t: State)
    requires NoOrphans(st) && t.index == st.index && t.files == st.files
    ensures NoOrphans(t)
  {
  }

  lemma RestartNoOrphans(st: State, c: Config)
    requires Valid(st, c) && NoOrphans(st)
    ensures NoOrphans(Boot(Persist(st), c))
  {
    hide NoOrphans, Increasing, UniqueLive, Stored, Backed, Loaded;
    RestartIs(st, c);
    PersistSame(st);
    SameNoOrphans(st, Persist(st));
  }

  lemma SaveNoOrphans(st: State, c: Config, e: Event, now: U32, opens: bool)
    requires NoOrphans(st)
    ensures NoOrphans(DoSave(st, c, e, now, opens).0)
  {
    hide NoOrphans, Persist;
    AddedNoOrphans(st, c, e, now);
    PersistSame(Added(st, c, e, now));
    SameNoOrphans(Added(st, c, e, now), Persist(Added(st, c, e, now)));
  }

  lemma AddedNoOrphans(st: State, c: Config, e: Event, now: U32)
    requires NoOrphans(st)
    ensures NoOrphans(Added(st, c, e, now))
  {
    hide Name;
    var t := Added(st, c, e, now);
    forall name | name in t.files
      ensures exists i :: 0 <= i < |t.index| && !t.index[i].deleted && Name(t.index[i]) == name
    {
      if name in st.files {
        var i :| 0 <= i < |st.index| && !st.index[i].deleted && Name(st.index[i]) == name;
        assert t.index[i] == st.index[i];
      } else {
        assert t.index[|st.index|] == NewEntry(e, now, c.ttl, st.next);
      }
    }
  }

  lemma DeleteNoOrphans(st: State, id: Id)
    requires NoOrphans(st)
    ensures NoOrphans(DoDelete(st, id).0)
  {
    hide Name, Persist;
    var n := Lookup(st.index, id);
    if n < |st.index| {
      var t := Removed(st, n);
      forall name | name in t.files
        ensures exists i :: 0 <= i < |t.index| && !t.index[i].deleted && Name(t.index[i]) == name
      {
        var i :| 0 <= i < |st.index| && !st.index[i].deleted && Name(st.index[i]) == name;
        assert t.index[i] == st.index[i];
      }
      PersistSame(t);
      SameNoOrphans(t, Persist(t));
    }
  }

  lemma PurgeNoOrphans(st: State, now: U32)
    requires NoOrphans(st)
    ensures NoOrphans(DoPurge(st, now).0)
  {
    hide Name, Persist, Expired, Dead, DeadCount;
    var t := st.(index := Buried(st.index, now), files := st.files - Dead(st.index, now));
    forall name | name in t.files
      ensures exists i :: 0 <= i < |t.index| && !t.index[i].deleted && Name(t.index[i]) == name
    {
      var i :| 0 <= i < |st.index| && !st.index[i].deleted && Name(st.index[i]) == name;
      DeadIff(st.index, now, name);
      assert t.index[i] == st.index[i];
    }
    PersistSame(t);
    SameNoOrphans(t, Persist(t));
  }

  lemma CompactNoOrphans(st: State)
    requires NoOrphans(st)
    ensures NoOrphans(DoCompact(st).0)
  {
    hide Name, Persist;
    var t := st.(index := Kept(st.index));
    KeptMembers(st.index);
    forall name | name in t.files
      ensures exists i :: 0 <= i < |t.index| && !t.index[i].deleted && Name(t.index[i]) == name
    {
      var i :| 0 <= i < |st.index| && !st.index[i].deleted && Name(st.index[i]) == name;
      assert st.index[i] in t.index;
    }
    PersistSame(t);
    SameNoOrphans(t, Persist(t));
  }

  /** After a crash between two calls there are files without an event exactly when there were before, or a live entry
      was not in flash. */
  lemma CrashOrphansIff(c: Config, ops: seq<Op>)
    requires Saves(ops) < TWO32
    ensures var st := Run(c, ops);
            NoOrphans(Run(c, ops + [PowerCut])) <==>
              NoOrphans(st) && forall i :: |Loaded(st.nvs, c.capacity)| <= i < |st.index| ==> st.index[i].deleted
  {
    var st := Run(c, ops);
    assert (ops + [PowerCut])[..|ops|] == ops;
    assert Run(c, ops + [PowerCut]) == Boot(st, c);
    EveryRunValid(c, ops);
    hide Run, Loaded;
    OrphansIff(st, c);
  }

  lemma OrphansIff(st: State, c: Config)
    requires Valid(st, c)
    ensures NoOrphans(Boot(st, c)) <==>
              NoOrphans(st) && forall i :: |Loaded(st.nvs, c.capacity)| <= i < |st.index| ==> st.index[i].deleted
  {
    hide NoOrphans, Valid, Loaded;
    if NoOrphans(Boot(st, c)) { CleanBoot(st, c); }
    if NoOrphans(st) && forall i :: |Loaded(st.nvs, c.capacity)| <= i < |st.index| ==> st.index[i].deleted {
      NothingLost(st, c);
    }
  }

  lemma CleanBoot(st: State, c: Config)
    requires Valid(st, c) && NoOrphans(Boot(st, c))
    ensures NoOrphans(st)
    ensures forall i :: |Loaded(st.nvs, c.capacity)| <= i < |st.index| ==> st.index[i].deleted
  {
    hide Name, Loaded, UniqueLive;
    var t := Boot(st, c);
    var n := |t.index|;
    assert forall i :: 0 <= i < n ==> t.index[i] == st.index[i];
    forall i | n <= i < |st.index| ensures st.index[i].deleted {
      if !st.index[i].deleted {
        var j :| 0 <= j < n && !t.index[j].deleted && Name(t.index[j]) == Name(st.index[i]);
        NamesDiffer(st.index, st.next, i, j);
      }
    }
    forall name | name in st.files
      ensures exists i :: 0 <= i < |st.index| && !st.index[i].deleted && Name(st.index[i]) == name
    {
      var i :| 0 <= i < n && !t.index[i].deleted && Name(t.index[i]) == name;
      assert st.index[i] == t.index[i];
    }
  }

  lemma NothingLost(st: State, c: Config)
    requires Valid(st, c) && NoOrphans(st)
    requires forall i :: |Loaded(st.nvs, c.capacity)| <= i < |st.index| ==> st.index[i].deleted
    ensures NoOrphans(Boot(st, c))
  {
    hide Name, Loaded, UniqueLive, Increasing, Stored;
    var t := Boot(st, c);
    assert forall i :: 0 <= i < |t.index| ==> t.index[i] == st.index[i];
    forall name | name in t.files
      ensures exists i :: 0 <= i < |t.index| && !t.index[i].deleted && Name(t.index[i]) == name
    {
      var i :| 0 <= i < |st.index| && !st.index[i].deleted && Name(st.index[i]) == name;
      assert t.index[i] == st.index[i];
    }
  }

  /** One save and a crash: the event is gone, its file stays. */
  lemma OneSaveLost(c: Config, e: Event, now: U32)
    requires c.capacity > 0
    ensures var t := Run(c, [Save(e, now, true), PowerCut]);
            t.index == [] && |t.files| == 1 && !NoOrphans(t)
  {
    var op := Save(e, now, true);
    assert [op][..0] == [] && [op, PowerCut][..1] == [op];
    assert Run(c, []) == Empty();
    var one := Run(c, [op]);
    var n := NewEntry(e, now, c.ttl, 0);
    assert one == Added(Empty(), c, e, now);
    assert Loaded(None, c.capacity) == [];
    var t := Run(c, [op, PowerCut]);
    assert t.files == map[Name(n) := e.json];
    assert Name(n) in t.files;
  }

  // ----- housekeeping is invisible

  lemma {:induction false} MatchingWithout(rs: seq<Record>, q: Query, now: U32, later: U32)
    requires now <= later
    ensures Matching(Without(rs, ExpiredAt(now)), q, later) == Matching(rs, q, later)
  {
    hide Expired, Selects, Readable;
    if rs != [] {
      var init, last := rs[..|rs| - 1], rs[|rs| - 1];
      MatchingWithout(init, q, now, later);
      if Expired(last.expires, now) { ExpiredStays(last.expires, now, later); }
      MatchingSnoc(Without(init, ExpiredAt(now)), last, q, later);
      assert Without(rs, ExpiredAt(now))
          == Without(init, ExpiredAt(now)) + if Expired(last.expires, now) then [] else [last];
      assert Without(init, ExpiredAt(now)) + [] == Without(init, ExpiredAt(now));
    }
  }

  lemma ExpiredStays(expires: U32, now: U32, later: U32)
    requires now <= later && Expired(expires, now)
    ensures Expired(expires, later)
  {
  }

  /** In every state that such a run reaches, purging changes no query at that time or later. */
  lemma PurgeInvisible(c: Config, ops: seq<Op>, now: U32, q: Query, later: U32)
    requires Saves(ops) < TWO32 - 1 && now <= later
    ensures var st := Run(c, ops);
            Step(Step(st, c, Purge(now)).0, c, Find(q, later)).1 == Step(st, c, Find(q, later)).1
  {
    hide Run, Valid, Step, Matching, Without;
    var st := Run(c, ops);
    EveryRunValid(c, ops);
    StepValid(st, c, Purge(now));
    StepRefines(st, c, Purge(now));
    StepRefines(st, c, Find(q, later));
    StepRefines(Step(st, c, Purge(now)).0, c, Find(q, later));
    MatchingWithout(ShelfOf(st, c).live, q, now, later);
  }

  /** Compaction changes no query and no existence check. */
  lemma CompactInvisible(c: Config, ops: seq<Op>, op: Op)
    requires Saves(ops) < TWO32 - 1 && (op.Find? || op.Exists?)
    ensures var st := Run(c, ops); Step(Step(st, c, Compact).0, c, op).1 == Step(st, c, op).1
  {
    hide Run, Valid, Step, Matching, Without;
    var st := Run(c, ops);
    EveryRunValid(c, ops);
    StepValid(st, c, Compact);
    StepRefines(st, c, Compact);
    StepRefines(st, c, op);
    StepRefines(Step(st, c, Compact).0, c, op);
  }

  /** A saved event exists, and heads every query that selects it while it is not expired. */
  lemma SavedIsNewest(c: Config, ops: seq<Op>, e: Event, now: U32, q: Query, later: U32)
    requires Saves(ops) < TWO32 - 1 && Step(Run(c, ops), c, Save(e, now, true)).1 == Result(Done)
    requires Selects(q, e.kind % 0x1_0000, e.author) && Readable(e.json) && !Expired((now + c.ttl) % TWO32, later)
    ensures var t := Step(Run(c, ops), c, Save(e, now, true)).0;
            && Step(t, c, Exists(e.id)).1 == Answer(true)
            && Step(t, c, Find(q, later)).1.Texts?
            && Step(t, c, Find(q, later)).1.texts != []
            && Step(t, c, Find(q, later)).1.texts[0] == e.json
  {
    hide Run, Valid, Step, ShelfStep;
    var st := Run(c, ops);
    var t := Step(st, c, Save(e, now, true)).0;
    EveryRunValid(c, ops);
    StepValid(st, c, Save(e, now, true));
    StepRefines(st, c, Save(e, now, true));
    StepRefines(t, c, Exists(e.id));
    StepRefines(t, c, Find(q, later));
    NewestOnShelf(ShelfOf(st, c), c, e, now, q, later);
  }

  lemma NewestOnShelf(sh: Shelf, c: Config, e: Event, now: U32, q: Query, later: U32)
    requires ShelfStep(sh, c, Save(e, now, true)).1 == Result(Done)
    requires Selects(q, e.kind % 0x1_0000, e.author) && Readable(e.json) && !Expired((now + c.ttl) % TWO32, later)
    ensures var t := ShelfStep(sh, c, Save(e, now, true)).0;
            && ShelfStep(t, c, Exists(e.id)).1 == Answer(true)
            && ShelfStep(t, c, Find(q, later)).1.Texts?
            && ShelfStep(t, c, Find(q, later)).1.texts != []
            && ShelfStep(t, c, Find(q, later)).1.texts[0] == e.json
  {
    hide Selects, Readable, Expired, Matching;
    var r := Record(e.id, e.author, e.kind % 0x1_0000, e.createdAt % TWO32, (now + c.ttl) % TWO32, e.json);
    var live := sh.live + [r];
    assert ShelfStep(sh, c, Save(e, now, true)).0.live == live;
    assert live[|sh.live|].id == e.id;
    MatchingSnoc(sh.live, r, q, later);
    hide ShelfStep;
    assert HasId(live, e.id);
    FirstTaken(Matching(live, q, later), q.limit);
    StepsOnShelf(ShelfStep(sh, c, Save(e, now, true)).0, c, e.id, q, later);
  }

  lemma FirstTaken(texts: seq<seq<Byte>>, limit: int)
    requires texts != []
    ensures Take(texts, Limit(limit)) != [] && Take(texts, Limit(limit))[0] == texts[0]
  {
  }

  lemma StepsOnShelf(sh: Shelf, c: Config, id: Id, q: Query, now: U32)
    ensures ShelfStep(sh, c, Exists(id)).1 == Answer(HasId(sh.live, id))
    ensures ShelfStep(sh, c, Find(q, now)).1 == Texts(Take(Matching(sh.live, q, now), Limit(q.limit)))
  {
  }

  /** A deleted event no longer exists. */
  lemma DeletedIsGone(c: Config, ops: seq<Op>, id: Id)
    requires Saves(ops) < TWO32 - 1
    ensures Step(Step(Run(c, ops), c, Delete(id)).0, c, Exists(id)).1 == Answer(false)
  {
    hide Run, Valid, Step;
    var st := Run(c, ops);
    var t := Step(st, c, Delete(id)).0;
    EveryRunValid(c, ops);
    StepValid(st, c, Delete(id));
    StepRefines(st, c, Delete(id));
    StepRefines(t, c, Exists(id));
    WithoutId(ShelfOf(st, c).live, id);
  }

  lemma {:induction false} WithoutId(rs: seq<Record>, id: Id)
    ensures !HasId(Without(rs, WithId(id)), id)
  {
    if rs != [] { WithoutId(rs[..|rs| - 1], id); }
  }
}
