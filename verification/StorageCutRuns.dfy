/** Whole runs of the event store in which the power may fail within calls. */
module StorageCutRuns {
  import opened Options
  import opened StorageSpec
  import opened StorageProofs
  import opened StorageRuns
  import opened StorageWrites
  import opened StorageCuts
  import opened StorageTorn
  import opened Widths

  /** A call that returns, or one that is cut off by a power failure after so many of its writes, with the next start. */
  datatype Happening = Called(op: Op) | Cut(op: Op, writes: nat)

  /** Every write was made. */
  predicate Complete(st: State, c: Config, op: Op, w: nat) { w == |CallWrites(st, c, op)| }

  /** None of the index was written, and no file of a saved entry is gone. */
  predicate Early(st: State, c: Config, op: Op, w: nat) { w <= |FileWrites(st, c, op)| && EarlyClean(st, c, op, w) }

  /** Flash was up to date before, and of its new index every mark was written. */
  ghost predicate MarksDone(st: State, c: Config, op: Op, w: nat) {
    && InPlace(op) && Torn(st, c, op, w) && Counted(st.nvs) && Saved(st, c) == |Target(st, c, op).index|
    && forall j: nat :: Marked(st, Target(st, c, op), j) ==> j / CHUNK < BlobsDone(st, c, op, w)
  }

  ghost predicate Clean(st: State, c: Config, h: Happening) {
    match h
    case Called(_) => true
    case Cut(op, w) => Complete(st, c, op, w) || Early(st, c, op, w) || MarksDone(st, c, op, w)
  }

  function After(st: State, c: Config, h: Happening): State {
    match h
    case Called(op) => Step(st, c, op).0
    case Cut(op, w) => CutState(st, c, op, Min(w, |CallWrites(st, c, op)|))
  }

  /** What happened as the plain list is told: an early cut is a crash before the call, any other clean one is a crash
      after it. */
  function Told(st: State, c: Config, h: Happening): seq<Op> {
    match h
    case Called(op) => [op]
    case Cut(op, w) => if Early(st, c, op, w) && !Complete(st, c, op, w) then [PowerCut] else [op, PowerCut]
  }

  // ----- a cut after the last write

  lemma CompleteIs(st: State, c: Config, op: Op)
    ensures CutState(st, c, op, |CallWrites(st, c, op)|) == Boot(Step(st, c, op).0, c)
  {
    hide CallWrites, Step, PutAll, Loaded, LoadedNext;
    var ws := CallWrites(st, c, op);
    assert ws[..|ws|] == ws;
    WholeCall(st, c, op);
  }

  // ----- a cut before the index is written

  /** The contents of the saved files stay. */
  lemma EarlyFiles(st: State, c: Config, op: Op, w: nat)
    requires Valid(st, c) && w <= |FileWrites(st, c, op)|
    ensures var d := PutAll(DiskOf(st), FileWrites(st, c, op)[..w]);
            && d.nvs == st.nvs
            && forall i :: 0 <= i < |st.index| && Name(st.index[i]) in d.files ==>
                 Content(d.files, Name(st.index[i])) == Content(st.files, Name(st.index[i]))
  {
    hide PutAll, Name, Content;
    var ws := FileWrites(st, c, op)[..w];
    if w == 0 {
      PutNothing(DiskOf(st));
    } else {
      match op
      case Save(e, now, opens) => EarlySaved(st, c, e, now, opens);
      case Delete(id) =>
        DeleteWritten(st, c, id);
        StillContent(st.files, st.files - {Name(st.index[Lookup(st.index, id)])}, st.index);
      case Purge(now) =>
        OnlyUnlinks(st.index, now);
        UnlinkedContent(DiskOf(st), ws);
        StillContent(st.files, PutAll(DiskOf(st), ws).files, st.index);
      case Compact =>
      case Exists(_) =>
      case Find(_, _) =>
      case Restart =>
      case PowerCut =>
    }
  }

  lemma EarlySaved(st: State, c: Config, e: Event, now: U32, opens: bool)
    requires Valid(st, c) && Writes(st, c, Save(e, now, opens))
    ensures var d := PutAll(DiskOf(st), FileWrites(st, c, Save(e, now, opens))[..1]);
            && d.nvs == st.nvs && d.files == st.files[Name(NewEntry(e, now, c.ttl, st.next)) := e.json]
            && forall i :: 0 <= i < |st.index| ==>
                 Content(d.files, Name(st.index[i])) == Content(st.files, Name(st.index[i]))
  {
    hide Backed, UniqueLive, Stored, PutAll, Writes;
    var n := NewEntry(e, now, c.ttl, st.next);
    var ws := FileWrites(st, c, Save(e, now, opens));
    assert ws[..1] == ws == [PutFile(Name(n), e.json)];
    PutAllOne(DiskOf(st), ws[0]);
    forall i | 0 <= i < |st.index| ensures Name(st.index[i]) != Name(n) {
      assert st.index[i].file < st.next;
    }
  }

  /** One map is part of the other. */
  predicate Within(f: Files, g: Files) { forall name :: name in f ==> name in g && f[name] == g[name] }

  lemma StillContent(f: Files, g: Files, index: seq<Entry>)
    requires Within(g, f)
    ensures forall i :: 0 <= i < |index| && Name(index[i]) in g ==> Content(g, Name(index[i])) == Content(f, Name(index[i]))
  {
    hide Name;
  }

  lemma {:induction false} UnlinkedContent(d: Disk, ws: seq<Write>)
    requires forall i :: 0 <= i < |ws| ==> ws[i].Unlink?
    ensures PutAll(d, ws).nvs == d.nvs && Within(PutAll(d, ws).files, d.files)
  {
    if ws != [] {
      UnlinkedContent(d, ws[..|ws| - 1]);
    }
  }

  /** An early cut leaves the records that a crash before the call would leave. */
  lemma EarlyRefines(st: State, c: Config, op: Op, w: nat)
    requires Valid(st, c) && Early(st, c, op, w)
    ensures var s := CutState(st, c, op, w);
            Valid(s, c) && s.nvs == st.nvs && s.next <= st.next && ShelfOf(s, c) == ShelfOf(Boot(st, c), c)
  {
    EarlyCutIff(st, c, op, w);
    EarlyWrites(st, c, op, w);
    EarlyFiles(st, c, op, w);
    var s, b := CutState(st, c, op, w), Saved(st, c);
    BootIndex(st, c);
    hide Valid, FileWrites, EarlyClean, CallWrites, PutAll, Loaded, LoadedNext, Records, Name, Content;
    SavedIndex(st, c, st.files);
    forall i | 0 <= i < |s.index| && !s.index[i].deleted
      ensures Content(s.files, Name(s.index[i])) == Content(st.files, Name(s.index[i]))
    {
      assert s.index[i] == st.index[i];
      HasFile(s, c, i);
    }
    RecordsFrame(s.index, s.files, st.files);
  }

  lemma HasFile(st: State, c: Config, i: nat)
    requires Valid(st, c) && i < |st.index| && !st.index[i].deleted
    ensures Name(st.index[i]) in st.files
  {
    hide Backed, UniqueLive, Increasing, Name;
  }

  lemma BootIndex(st: State, c: Config)
    requires Valid(st, c)
    ensures Boot(st, c).index == Loaded(st.nvs, c.capacity) == st.index[..Saved(st, c)]
    ensures Boot(st, c).next <= st.next
  {
    hide Loaded, LoadedNext, Increasing, UniqueLive, Stored;
  }

  // ----- a cut behind all the marks

  /** The new index is in flash, whatever has not been written of it. */
  lemma MarksDoneIs(st: State, c: Config, op: Op, w: nat)
    requires Valid(st, c) && Sound(st, c) && MarksDone(st, c, op, w)
    ensures var s, t := CutState(st, c, op, w), Target(st, c, op);
            s.index == t.index && s.files == t.files && s.next <= st.next
  {
    var s, t, m := CutState(st, c, op, w), Target(st, c, op), BlobsDone(st, c, op, w);
    InPlaceTarget(st, c, op);
    SavedIndex(st, c, st.files);
    TornState(st, c, op, w);
    NextKept(st, c, op);
    forall j: nat | j < |st.index| ensures s.index[j] == t.index[j] {
      CurrentMixed(st, c, op, w, j);
      hide FileWrites, CallWrites, SavesIndex, Target, CutState, Sound, Valid, BlobsDone, Saved, Counted, Torn, Mixed;
      assert Marked(st, t, j) ==> j / CHUNK < m;
    }
    hide FileWrites, CallWrites, SavesIndex, Target, CutState, Sound, Valid, BlobsDone, Saved, Counted, Torn, Mixed, LoadedNext;
  }

  lemma NextKept(st: State, c: Config, op: Op)
    requires Valid(st, c) && InPlace(op) && |Target(st, c, op).index| <= |st.index|
    ensures Target(st, c, op).next == st.next && LoadedNext(st.nvs) <= st.next
  {
    hide Increasing, UniqueLive, Stored, Loaded, Buried, Dead, LoadedNext;
  }

  /** What the plain list sees of it is the call and a crash. */
  lemma MarksDoneRefines(st: State, c: Config, op: Op, w: nat)
    requires Valid(st, c) && Sound(st, c) && MarksDone(st, c, op, w)
    ensures var s := CutState(st, c, op, w);
            Valid(s, c) && s.next <= st.next && ShelfOf(s, c) == ShelfOf(Boot(Step(st, c, op).0, c), c)
  {
    var t := Target(st, c, op);
    MarksDoneIs(st, c, op, w);
    InPlaceTarget(st, c, op);
    CurrentIff(st, c, op, w);
    TargetPersisted(st, c, op);
    PersistLoaded(t, c.capacity);
    PersistSame(t);
    CutLoaded(st, c, op, w);
    hide FileWrites, CallWrites, SavesIndex, Target, CutState, Sound, Valid, BlobsDone, Saved, Torn, Step, Persist, Loaded,
      LoadedNext, Records, Marked;
  }

  /** After a start the index is what flash holds. */
  lemma CutLoaded(st: State, c: Config, op: Op, w: nat)
    requires w <= |CallWrites(st, c, op)|
    ensures var s := CutState(st, c, op, w); s.index == Loaded(s.nvs, c.capacity)
  {
  }

  // ----- flash stays sound

  lemma SoundFlash(st: State, t: State, c: Config)
    requires Sound(st, c) && st.nvs == t.nvs
    ensures Sound(t, c)
  {
  }

  lemma PersistSound(st: State, c: Config)
    requires |st.index| <= c.capacity
    ensures Sound(Persist(st), c)
  {
    var n, blobs := |st.index|, Persist(st).nvs.value.blobs;
    forall k: nat | ChunkStart(k) < n ensures k in blobs && |blobs[k]| == Min(CHUNK, n - ChunkStart(k)) {
      assert blobs[k] == ChunkOf(st.index, k);
    }
  }

  lemma StepSound(st: State, c: Config, op: Op)
    requires Valid(st, c) && Sound(st, c)
    ensures Sound(Step(st, c, op).0, c)
  {
    hide Sound, Step, Target, SavesIndex, Valid;
    if SavesIndex(st, c, op) {
      TargetPersisted(st, c, op);
      TargetSize(st, c, op);
      PersistSound(Target(st, c, op), c);
      SoundFlash(Persist(Target(st, c, op)), Step(st, c, op).0, c);
    } else {
      NothingSaved(st, c, op);
      SoundFlash(st, Step(st, c, op).0, c);
    }
  }

  /** Chunks of an index of the same length take the place of the old ones. */
  lemma WrittenSound(stale: map<nat, seq<Entry>>, index: seq<Entry>, m: nat, k: nat)
    requires m <= ChunkCount(|index|) && ChunkStart(k) < |index|
    requires k in stale && |stale[k]| == Min(CHUNK, |index| - ChunkStart(k))
    ensures k in Written(stale, index, m) && |Written(stale, index, m)[k]| == Min(CHUNK, |index| - ChunkStart(k))
  {
    if k < m { assert Written(stale, index, m)[k] == ChunkOf(index, k); }
  }

  lemma TornNvs(st: State, c: Config, op: Op, w: nat)
    requires Torn(st, c, op, w) && Counted(st.nvs)
    ensures BlobsDone(st, c, op, w) <= ChunkCount(|Target(st, c, op).index|)
    ensures var s, t, m := CutState(st, c, op, w), Target(st, c, op), BlobsDone(st, c, op, w);
            && s.nvs.Some? && s.nvs.value.count == Some(|t.index|)
            && s.nvs.value.blobs == Written(st.nvs.value.blobs, t.index, m)
  {
    hide PutAll, IndexWrites, FileWrites, Target, SavesIndex, Mixed, CallWrites, ChunkCount, Written;
    var t, f := Target(st, c, op), |FileWrites(st, c, op)|;
    TornDisk(st, c, op, w);
    TornBlobs(st, c, op, w);
    if w == f + 1 {
      FirstCounter(Disk(t.files, st.nvs), t.index, t.next);
      WrittenNone(st.nvs.value.blobs, t.index);
    } else {
      CountersAndBlobs(Disk(t.files, st.nvs), t.index, t.next, w - f - 2);
    }
  }

  lemma MarksDoneSound(st: State, c: Config, op: Op, w: nat)
    requires Valid(st, c) && Sound(st, c) && MarksDone(st, c, op, w)
    ensures Sound(CutState(st, c, op, w), c)
  {
    var s, t, m := CutState(st, c, op, w), Target(st, c, op), BlobsDone(st, c, op, w);
    TornNvs(st, c, op, w);
    hide FileWrites, CallWrites, SavesIndex, Target, CutState, Valid, BlobsDone, Torn, Written, Marked;
    forall k: nat | ChunkStart(k) < |t.index|
      ensures k in s.nvs.value.blobs && |s.nvs.value.blobs[k]| == Min(CHUNK, |t.index| - ChunkStart(k))
    {
      WrittenSound(st.nvs.value.blobs, t.index, m, k);
    }
  }

  // ----- one happening

  ghost function ShelfSteps(sh: Shelf, c: Config, ops: seq<Op>): Shelf {
    if ops == [] then sh else ShelfStep(ShelfSteps(sh, c, ops[..|ops| - 1]), c, ops[|ops| - 1]).0
  }

  lemma OneStep(sh: Shelf, c: Config, a: Op)
    ensures ShelfSteps(sh, c, [a]) == ShelfStep(sh, c, a).0
  {
    hide ShelfStep;
    assert [a][..0] == [];
  }

  lemma TwoSteps(sh: Shelf, c: Config, a: Op, b: Op)
    ensures ShelfSteps(sh, c, [a, b]) == ShelfStep(ShelfStep(sh, c, a).0, c, b).0
  {
    hide ShelfStep;
    assert [a, b][..1] == [a];
    OneStep(sh, c, a);
  }

  /** A call and a crash. */
  lemma CrashedStep(st: State, c: Config, op: Op)
    requires Valid(st, c) && (op.Save? ==> st.next < TWO32 - 1)
    ensures var t := Boot(Step(st, c, op).0, c);
            && Valid(t, c) && ShelfOf(t, c) == ShelfSteps(ShelfOf(st, c), c, [op, PowerCut])
            && t.next <= st.next + if op.Save? then 1 else 0
  {
    StepValid(st, c, op);
    StepRefines(st, c, op);
    CrashRefines(Step(st, c, op).0, c);
    BootValid(Step(st, c, op).0, c);
    BootNext(Step(st, c, op).0, c);
    TwoSteps(ShelfOf(st, c), c, op, PowerCut);
  }

  lemma BootSound(st: State, c: Config)
    requires Sound(st, c)
    ensures Sound(Boot(st, c), c)
  {
    hide Loaded;
    SoundFlash(st, Boot(st, c), c);
  }

  function SavesOf(h: Happening): nat { if h.op.Save? then 1 else 0 }

  /** A clean cut leaves a valid store, and to the plain list it looks like a crash before or after the call. */
  lemma AfterRefines(st: State, c: Config, h: Happening)
    requires Valid(st, c) && Sound(st, c) && Clean(st, c, h) && (SavesOf(h) > 0 ==> st.next < TWO32 - 1)
    ensures Valid(After(st, c, h), c) && Sound(After(st, c, h), c)
    ensures ShelfOf(After(st, c, h), c) == ShelfSteps(ShelfOf(st, c), c, Told(st, c, h))
    ensures After(st, c, h).next <= st.next + Saves(Told(st, c, h))
  {
    ToldSaves(st, c, h);
    hide Valid, Sound, Step, ShelfStep, ShelfSteps, ShelfOf, CutState, Early, MarksDone, CallWrites, Boot, Saves;
    match h
    case Called(op) =>
      StepValid(st, c, op);
      StepSound(st, c, op);
      StepRefines(st, c, op);
      OneStep(ShelfOf(st, c), c, op);
    case Cut(op, w) =>
      if Complete(st, c, op, w) {
        CompleteAfter(st, c, op);
      } else if Early(st, c, op, w) {
        EarlyAfter(st, c, op, w);
      } else {
        MarksDoneAfter(st, c, op, w);
      }
  }

  lemma ToldSaves(st: State, c: Config, h: Happening)
    ensures Saves(Told(st, c, h)) <= SavesOf(h)
    ensures Told(st, c, h) != [PowerCut] ==> Saves(Told(st, c, h)) == SavesOf(h)
  {
    hide Early, Complete, Saves;
    OneSave(h.op);
    OneSave(PowerCut);
    OneMore(h.op);
  }

  lemma OneSave(op: Op)
    ensures Saves([op]) == if op.Save? then 1 else 0
  {
    assert [op][..0] == [];
  }

  lemma OneMore(op: Op)
    ensures Saves([op, PowerCut]) == Saves([op])
  {
    assert [op, PowerCut][..1] == [op];
  }

  lemma CompleteAfter(st: State, c: Config, op: Op)
    requires Valid(st, c) && Sound(st, c) && (op.Save? ==> st.next < TWO32 - 1)
    ensures var t := CutState(st, c, op, |CallWrites(st, c, op)|);
            && Valid(t, c) && Sound(t, c) && ShelfOf(t, c) == ShelfSteps(ShelfOf(st, c), c, [op, PowerCut])
            && t.next <= st.next + if op.Save? then 1 else 0
  {
    hide Valid, Sound, Step, ShelfSteps, ShelfOf, CutState, CallWrites, Boot;
    CompleteIs(st, c, op);
    CrashedStep(st, c, op);
    StepSound(st, c, op);
    BootSound(Step(st, c, op).0, c);
  }

  lemma EarlyAfter(st: State, c: Config, op: Op, w: nat)
    requires Valid(st, c) && Sound(st, c) && Early(st, c, op, w)
    ensures w <= |CallWrites(st, c, op)|
    ensures var t := CutState(st, c, op, w);
            && Valid(t, c) && Sound(t, c) && ShelfOf(t, c) == ShelfSteps(ShelfOf(st, c), c, [PowerCut])
            && t.next <= st.next
  {
    hide Valid, Sound, ShelfSteps, ShelfStep, ShelfOf, CutState, FileWrites, EarlyClean, Boot;
    FilesFirst(st, c, op);
    EarlyRefines(st, c, op, w);
    SoundFlash(st, CutState(st, c, op, w), c);
    CrashRefines(st, c);
    OneStep(ShelfOf(st, c), c, PowerCut);
  }

  lemma MarksDoneAfter(st: State, c: Config, op: Op, w: nat)
    requires Valid(st, c) && Sound(st, c) && MarksDone(st, c, op, w)
    ensures w <= |CallWrites(st, c, op)|
    ensures var t := CutState(st, c, op, w);
            && Valid(t, c) && Sound(t, c) && ShelfOf(t, c) == ShelfSteps(ShelfOf(st, c), c, [op, PowerCut])
            && t.next <= st.next
  {
    NotASave(st, c, op, w);
    hide Valid, Sound, ShelfSteps, ShelfStep, ShelfOf, CutState, MarksDone, Boot;
    MarksDoneRefines(st, c, op, w);
    MarksDoneSound(st, c, op, w);
    CrashedStep(st, c, op);
  }

  /** A save adds an entry that flash did not hold. */
  lemma NotASave(st: State, c: Config, op: Op, w: nat)
    requires Valid(st, c) && MarksDone(st, c, op, w)
    ensures !op.Save? && w <= |CallWrites(st, c, op)|
  {
    InPlaceTarget(st, c, op);
    SavedIndex(st, c, st.files);
  }

  // ----- runs

  function CutRun(c: Config, hs: seq<Happening>): State {
    if hs == [] then Empty() else After(CutRun(c, hs[..|hs| - 1]), c, hs[|hs| - 1])
  }

  ghost predicate AllClean(c: Config, hs: seq<Happening>) {
    hs == [] || (AllClean(c, hs[..|hs| - 1]) && Clean(CutRun(c, hs[..|hs| - 1]), c, hs[|hs| - 1]))
  }

  /** The run as the plain list is told. */
  function Retold(c: Config, hs: seq<Happening>): seq<Op> {
    if hs == [] then []
    else Retold(c, hs[..|hs| - 1]) + Told(CutRun(c, hs[..|hs| - 1]), c, hs[|hs| - 1])
  }

  function CallsOfSave(hs: seq<Happening>): nat {
    if hs == [] then 0 else CallsOfSave(hs[..|hs| - 1]) + SavesOf(hs[|hs| - 1])
  }

  lemma {:induction false} ShelfRunAppend(c: Config, a: seq<Op>, b: seq<Op>)
    ensures ShelfRun(c, a + b) == ShelfSteps(ShelfRun(c, a), c, b)
  {
    hide ShelfStep;
    if b == [] {
      assert a + b == a;
    } else {
      var init, last := b[..|b| - 1], b[|b| - 1];
      ShelfRunAppend(c, a, init);
      assert a + b == (a + init) + [last];
      assert ((a + init) + [last])[..|a + init|] == a + init;
    }
  }

  /** In every run whose power cuts are clean, wherever within the calls they fall, the store is valid and stands for the
      plain list after a run of whole calls and crashes between them. */
  lemma {:induction false} EveryCutRun(c: Config, hs: seq<Happening>)
    requires AllClean(c, hs) && CallsOfSave(hs) < TWO32
    ensures Valid(CutRun(c, hs), c) && Sound(CutRun(c, hs), c) && CutRun(c, hs).next <= CallsOfSave(hs)
    ensures ShelfOf(CutRun(c, hs), c) == ShelfRun(c, Retold(c, hs))
  {
    hide Valid, Sound, Clean, After, Told, ShelfOf, SavesOf;
    if hs == [] {
      EmptyValid(c);
      EmptySound(c);
      EmptyShelf(c);
    } else {
      var init, h := hs[..|hs| - 1], hs[|hs| - 1];
      EveryCutRun(c, init);
      AfterRefines(CutRun(c, init), c, h);
      ToldSaves(CutRun(c, init), c, h);
      ShelfRunAppend(c, Retold(c, init), Told(CutRun(c, init), c, h));
    }
  }

  lemma EmptySound(c: Config)
    ensures Sound(Empty(), c)
  {
  }

  /** And the next call gives the answer that the plain list gives. */
  lemma CutAnswers(c: Config, hs: seq<Happening>, op: Op)
    requires AllClean(c, hs) && CallsOfSave(hs) < TWO32
    ensures Step(CutRun(c, hs), c, op).1 == ShelfStep(ShelfRun(c, Retold(c, hs)), c, op).1
  {
    hide Valid, Step, ShelfStep, CutRun, ShelfRun, AllClean, ShelfOf;
    EveryCutRun(c, hs);
    StepRefines(CutRun(c, hs), c, op);
  }

  /** After such a run, a cut before the index is written costs the records of at most nine saves, whether or not it
      leaves a valid store. */
  lemma EarlyLoss(c: Config, hs: seq<Happening>, op: Op, w: nat)
    requires AllClean(c, hs) && CallsOfSave(hs) < TWO32 && w <= |FileWrites(CutRun(c, hs), c, op)|
    ensures var st, t := CutRun(c, hs), CutRun(c, hs + [Cut(op, w)]);
            && |t.index| <= |st.index| <= |t.index| + 9
            && t.index == st.index[..|t.index|]
            && (Valid(t, c) <==> EarlyClean(st, c, op, w))
  {
    var st := CutRun(c, hs);
    EveryCutRun(c, hs);
    assert (hs + [Cut(op, w)])[..|hs|] == hs;
    assert CutRun(c, hs + [Cut(op, w)]) == CutState(st, c, op, w) by { FilesFirst(st, c, op); }
    hide CutRun, FileWrites, CutState, EarlyClean, Valid;
    EarlyCutIff(st, c, op, w);
    SavedIndex(st, c, st.files);
    SavedMost(st, c);
  }

  lemma FilesFirst(st: State, c: Config, op: Op)
    ensures |FileWrites(st, c, op)| <= |CallWrites(st, c, op)|
  {
    hide FileWrites, SavesIndex, Target;
  }

  // ----- what early cuts leave behind

  /** A save that is cut between its file and the index leaves a file without an event, even where flash held all the
      others. */
  lemma SaveCutOrphan(st: State, c: Config, op: Op)
    requires Valid(st, c) && Writes(st, c, op)
    ensures |FileWrites(st, c, op)| == 1 && !NoOrphans(CutState(st, c, op, 1))
  {
    var e := op.event;
    var name := Name(NewEntry(e, op.now, c.ttl, st.next));
    FilesFirst(st, c, op);
    EarlyWrites(st, c, op, 1);
    EarlySaved(st, c, e, op.now, op.opens);
    EarlyCutIff(st, c, op, 1);
    var s := CutState(st, c, op, 1);
    assert name in s.files;
    hide CutState, PutAll, FileWrites, CallWrites, Writes, EarlyClean, Backed, UniqueLive, Stored, Saved;
    forall i | 0 <= i < |s.index| ensures Name(s.index[i]) != name {
      assert s.index[i] == st.index[i] && st.index[i].file < st.next;
    }
  }

  /** A delete that is cut between its file and the index leaves the entry live without its file, if flash holds it: the
      event exists and no query returns its text. */
  lemma DeleteCutHalf(st: State, c: Config, id: Id)
    requires Valid(st, c) && Lookup(st.index, id) < Saved(st, c)
    ensures Lookup(st.index, id) < |st.index| && |FileWrites(st, c, Delete(id))| == 1
    ensures var s, i := CutState(st, c, Delete(id), 1), Lookup(st.index, id);
            && i < |s.index| && s.index[i] == st.index[i] && !s.index[i].deleted
            && Name(s.index[i]) !in s.files
            && Step(s, c, Exists(id)).1 == Answer(true)
            && forall q, now :: !Hit(s.files, q, now, s.index[i])
  {
    var s, i := CutState(st, c, Delete(id), 1), Lookup(st.index, id);
    SavedIndex(st, c, st.files);
    DeleteCutIndex(st, c, id);
    assert |FileWrites(st, c, Delete(id))| == 1;
    hide CutState, FileWrites, CallWrites, Valid, Saved, Name, Step, Hit;
    assert s.index[i] == st.index[i];
    LiveExists(s, c, id, i);
    forall q, now ensures !Hit(s.files, q, now, s.index[i]) {
      NoFileNoHit(s.files, q, now, s.index[i]);
    }
  }

  lemma LiveExists(st: State, c: Config, id: Id, i: nat)
    requires i < |st.index| && st.index[i].id == id && !st.index[i].deleted
    ensures Step(st, c, Exists(id)).1 == Answer(true)
  {
  }

  lemma NoFileNoHit(files: Files, q: Query, now: U32, e: Entry)
    requires Name(e) !in files
    ensures !Hit(files, q, now, e)
  {
  }

  lemma DeleteCutIndex(st: State, c: Config, id: Id)
    requires Valid(st, c) && Lookup(st.index, id) < |st.index|
    ensures |FileWrites(st, c, Delete(id))| == 1 <= |CallWrites(st, c, Delete(id))|
    ensures var s := CutState(st, c, Delete(id), 1);
            s.index == st.index[..Saved(st, c)] && Name(st.index[Lookup(st.index, id)]) !in s.files
  {
    FilesFirst(st, c, Delete(id));
    EarlyWrites(st, c, Delete(id), 1);
    DeleteWritten(st, c, id);
    assert |FileWrites(st, c, Delete(id))| == 1;
    hide PutAll, FileWrites, CallWrites, EarlyClean, Valid, Saved, Name, Loaded, LoadedNext;
    EarlyCutIff(st, c, Delete(id), 1);
  }
}
