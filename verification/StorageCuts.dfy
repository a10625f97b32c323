/** Power cuts within a call: which of them leave a valid store, and what the others do. */
module StorageCuts {
  import opened StorageSpec
  import opened StorageProofs
  import opened StorageWrites

  /** How many entries flash holds. */
  function Saved(st: State, c: Config): nat { |Loaded(st.nvs, c.capacity)| }

  // ----- what a start needs

  /** A started engine is valid exactly when its index is in order, unique and has its files. */
  lemma StartedIff(d: Disk, c: Config)
    ensures var t := Started(d, c);
            Valid(t, c) <==> Increasing(t.index, t.next) && UniqueLive(t.index) && Stored(t.index, t.files)
  {
    hide Increasing, UniqueLive, Stored, LoadedSlot;
    var t := Started(d, c);
    assert t.index[..|t.index|] == t.index;
  }

  /** What is in flash is in order and unique; files may have gone. */
  lemma SavedPart(st: State, c: Config, files: Files)
    requires Valid(st, c)
    ensures var t := Started(Disk(files, st.nvs), c);
            && t.index == st.index[..Saved(st, c)] && Saved(st, c) <= |st.index|
            && (Valid(t, c) <==> Stored(t.index, files))
  {
    hide Loaded, LoadedNext;
    StartedIff(Disk(files, st.nvs), c);
    var b := Saved(st, c);
    assert forall i :: 0 <= i < b ==> st.index[..b][i] == st.index[i];
  }

  // ----- cuts before the index is written

  /** The first live expired entry, or the length. */
  function FirstDead(index: seq<Entry>, now: U32): (i: nat)
    ensures i <= |index| && (i < |index| ==> !index[i].deleted && Expired(index[i].expires, now))
    ensures forall j :: 0 <= j < i ==> index[j].deleted || !Expired(index[j].expires, now)
  {
    if index == [] then 0
    else if !index[0].deleted && Expired(index[0].expires, now) then 0
    else 1 + FirstDead(index[1..], now)
  }

  /** No file has been unlinked yet whose entry is in flash. */
  predicate EarlyClean(st: State, c: Config, op: Op, w: nat) {
    w == 0 ||
    match op
    case Delete(id) => Saved(st, c) <= Lookup(st.index, id)
    case Purge(now) => Saved(st, c) <= FirstDead(st.index, now)
    case _ => true
  }

  lemma {:induction false} UnlinkedNames(index: seq<Entry>, now: U32, w: nat, d: Disk)
    requires w <= |Unlinks(index, now)|
    ensures var e := PutAll(d, Unlinks(index, now)[..w]);
            && e.nvs == d.nvs
            && (forall name :: name in d.files && name !in e.files ==> name in Dead(index, now))
            && (forall name :: name in d.files && name !in Dead(index, now) ==> name in e.files)
  {
    hide Expired, Name;
    if index != [] {
      var init, last := index[..|index| - 1], index[|index| - 1];
      var us := Unlinks(init, now);
      if w <= |us| {
        assert Unlinks(index, now)[..w] == us[..w];
        UnlinkedNames(init, now, w, d);
      } else {
        UnlinkedNames(init, now, |us|, d);
        assert us[..|us|] == us;
        assert Unlinks(index, now)[..w] == us + [Unlink(Name(last))];
        PutAllAppend(d, us, [Unlink(Name(last))]);
        PutAllOne(PutAll(d, us), Unlink(Name(last)));
      }
    }
  }

  lemma EarlyWrites(st: State, c: Config, op: Op, w: nat)
    requires w <= |FileWrites(st, c, op)|
    ensures CallWrites(st, c, op)[..w] == FileWrites(st, c, op)[..w]
  {
    hide FileWrites, SavesIndex, Target;
  }

  lemma SavesWritten(st: State, c: Config, op: Op, w: nat)
    requires op.Save? && w <= |FileWrites(st, c, op)|
    ensures var d := PutAll(DiskOf(st), FileWrites(st, c, op)[..w]);
            d.nvs == st.nvs && forall name :: name in st.files ==> name in d.files
  {
    hide Name;
    var ws := FileWrites(st, c, op);
    if w == 0 { PutNothing(DiskOf(st)); } else { assert ws[..1] == ws; PutAllOne(DiskOf(st), ws[0]); }
  }

  lemma DeleteWritten(st: State, c: Config, id: Id)
    requires Lookup(st.index, id) < |st.index|
    ensures PutAll(DiskOf(st), FileWrites(st, c, Delete(id))[..1])
         == Disk(st.files - {Name(st.index[Lookup(st.index, id)])}, st.nvs)
  {
    hide Name;
    var ws := FileWrites(st, c, Delete(id));
    assert ws[..1] == ws;
    PutAllOne(DiskOf(st), ws[0]);
  }

  lemma {:induction false} OnlyUnlinks(index: seq<Entry>, now: U32)
    ensures forall i :: 0 <= i < |Unlinks(index, now)| ==> Unlinks(index, now)[i].Unlink?
    ensures var f := FirstDead(index, now); f < |index| ==>
              Unlinks(index, now) != [] && Unlinks(index, now)[0] == Unlink(Name(index[f]))
    ensures FirstDead(index, now) == |index| ==> Unlinks(index, now) == []
  {
    hide Expired, Name;
    if index != [] {
      var init, last := index[..|index| - 1], index[|index| - 1];
      OnlyUnlinks(init, now);
      UnlinksLast(index, now);
      FirstDeadInit(index, now);
    }
  }

  lemma FirstDeadInit(index: seq<Entry>, now: U32)
    requires index != []
    ensures var init, last := index[..|index| - 1], index[|index| - 1];
            FirstDead(index, now) ==
            if FirstDead(init, now) < |init| then FirstDead(init, now)
            else if !last.deleted && Expired(last.expires, now) then |init| else |index|
  {
    hide Expired;
    var init := index[..|index| - 1];
    assert forall i :: 0 <= i < |init| ==> init[i] == index[i];
    var f, g := FirstDead(index, now), FirstDead(init, now);
    if g < |init| { assert !index[g].deleted && Expired(index[g].expires, now); }
    if f < |init| { assert !init[f].deleted && Expired(init[f].expires, now); }
  }

  lemma {:induction false} StaysUnlinked(d: Disk, ws: seq<Write>, name: FileName)
    requires ws != [] && ws[0] == Unlink(name) && forall i :: 0 <= i < |ws| ==> ws[i].Unlink?
    ensures name !in PutAll(d, ws).files
  {
    if |ws| == 1 {
      assert ws == [Unlink(name)];
      PutAllOne(d, ws[0]);
    } else {
      StaysUnlinked(d, ws[..|ws| - 1], name);
    }
  }

  /** A cut before the index is written leaves a valid store exactly when no file has gone whose entry is in flash. */
  lemma EarlyCutIff(st: State, c: Config, op: Op, w: nat)
    requires Valid(st, c) && w <= |FileWrites(st, c, op)|
    ensures CutState(st, c, op, w).index == st.index[..Saved(st, c)]
    ensures Valid(CutState(st, c, op, w), c) <==> EarlyClean(st, c, op, w)
  {
    hide Valid, Started, PutAll;
    EarlyWrites(st, c, op, w);
    var ws := FileWrites(st, c, op);
    var d := PutAll(DiskOf(st), ws[..w]);
    if w == 0 {
      assert ws[..0] == [];
      PutNothing(DiskOf(st));
      EarlyKept(st, c, st.files);
    } else {
      match op
      case Save(e, now, opens) => SavesWritten(st, c, op, w); EarlyKept(st, c, d.files);
      case Delete(id) => EarlyDelete(st, c, id);
      case Purge(now) => EarlyPurge(st, c, now, w);
      case Compact =>
      case Exists(_) =>
      case Find(_, _) =>
      case Restart =>
      case PowerCut =>
    }
    SavedIndex(st, c, d.files);
  }

  lemma SavedIndex(st: State, c: Config, files: Files)
    requires Valid(st, c)
    ensures Saved(st, c) <= |st.index|
    ensures Started(Disk(files, st.nvs), c).index == st.index[..Saved(st, c)]
  {
    hide Loaded, LoadedNext;
    SavedPart(st, c, files);
  }

  lemma EarlyKept(st: State, c: Config, files: Files)
    requires Valid(st, c) && forall name :: name in st.files ==> name in files
    ensures Valid(Started(Disk(files, st.nvs), c), c)
  {
    SavedPart(st, c, files);
    hide Started, Backed, Increasing, UniqueLive;
    var b := Saved(st, c);
    assert forall i :: 0 <= i < b ==> st.index[..b][i] == st.index[i];
  }

  lemma EarlyDelete(st: State, c: Config, id: Id)
    requires Valid(st, c) && Lookup(st.index, id) < |st.index|
    ensures var d := PutAll(DiskOf(st), FileWrites(st, c, Delete(id))[..1]);
            d.nvs == st.nvs && (Valid(Started(d, c), c) <==> Saved(st, c) <= Lookup(st.index, id))
  {
    var i, b := Lookup(st.index, id), Saved(st, c);
    var files := st.files - {Name(st.index[i])};
    DeleteWritten(st, c, id);
    SavedPart(st, c, files);
    hide Started, Backed, UniqueLive, Name, PutAll;
    assert forall j :: 0 <= j < b ==> st.index[..b][j] == st.index[j];
    if b <= i {
      forall j | 0 <= j < b && !st.index[j].deleted ensures Name(st.index[j]) in files {
        NamesDiffer(st.index, st.next, j, i);
      }
    } else {
      assert st.index[..b][i] == st.index[i];
    }
  }

  /** Of the files of live entries those that are not expired are there, and the first expired one is gone. */
  lemma PurgeFiles(st: State, c: Config, now: U32, w: nat)
    requires Valid(st, c) && 0 < w <= |Unlinks(st.index, now)|
    ensures var d, f := PutAll(DiskOf(st), Unlinks(st.index, now)[..w]), FirstDead(st.index, now);
            && d.nvs == st.nvs
            && (forall j :: 0 <= j < f && !st.index[j].deleted ==> Name(st.index[j]) in d.files)
            && f < |st.index| && Name(st.index[f]) !in d.files
  {
    var f := FirstDead(st.index, now);
    var d := PutAll(DiskOf(st), Unlinks(st.index, now)[..w]);
    OnlyUnlinks(st.index, now);
    hide Backed, UniqueLive, Name, PutAll, Unlinks, Dead, Expired, FirstDead;
    UnlinkedNames(st.index, now, w, DiskOf(st));
    StaysUnlinked(DiskOf(st), Unlinks(st.index, now)[..w], Name(st.index[f]));
    forall j | 0 <= j < f && !st.index[j].deleted ensures Name(st.index[j]) in d.files {
      Survives(st.index, st.next, now, j);
    }
  }

  lemma EarlyPurge(st: State, c: Config, now: U32, w: nat)
    requires Valid(st, c) && 0 < w <= |FileWrites(st, c, Purge(now))|
    ensures var d := PutAll(DiskOf(st), FileWrites(st, c, Purge(now))[..w]);
            d.nvs == st.nvs && (Valid(Started(d, c), c) <==> Saved(st, c) <= FirstDead(st.index, now))
  {
    var f, b := FirstDead(st.index, now), Saved(st, c);
    var d := PutAll(DiskOf(st), Unlinks(st.index, now)[..w]);
    PurgeFiles(st, c, now, w);
    SavedPart(st, c, d.files);
    hide Started, Valid, Name, PutAll, Unlinks, FirstDead, Saved;
    PrefixStored(st.index, b, d.files);
  }

  /** The beginning of an index has its files. */
  lemma PrefixStored(index: seq<Entry>, b: nat, files: Files)
    requires b <= |index|
    ensures Stored(index[..b], files) <==> forall j :: 0 <= j < b && !index[j].deleted ==> Name(index[j]) in files
  {
    hide Name;
    assert forall j :: 0 <= j < b ==> index[..b][j] == index[j];
  }
}
