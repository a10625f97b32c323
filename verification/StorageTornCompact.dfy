/** Power cuts while a compaction writes the index: kept entries have moved, and the old blobs do not know. */
module StorageTornCompact {
  import opened StorageSpec
  import opened StorageProofs
  import opened StorageWrites
  import opened StorageCuts
  import opened StorageTorn

  // ----- what is kept

  lemma {:induction false} KeptSplit(a: seq<Entry>, b: seq<Entry>)
    ensures Kept(a + b) == Kept(a) + Kept(b)
  {
    if b == [] {
      assert a + b == a && Kept(a) + [] == Kept(a);
    } else {
      var init, last := b[..|b| - 1], b[|b| - 1];
      KeptSplit(a, init);
      assert (a + b)[..|a + b| - 1] == a + init;
      if last.deleted {
        assert Kept(b) == Kept(init) && Kept(a + b) == Kept(a + init);
      } else {
        assert Kept(a) + Kept(init) + [last] == Kept(a) + (Kept(init) + [last]);
      }
    }
  }

  lemma {:induction false} KeptAllLive(s: seq<Entry>)
    ensures |Kept(s)| == |s| <==> forall i :: 0 <= i < |s| ==> !s[i].deleted
    ensures (forall i :: 0 <= i < |s| ==> !s[i].deleted) ==> Kept(s) == s
  {
    if s != [] {
      var init, last := s[..|s| - 1], s[|s| - 1];
      KeptAllLive(init);
      assert s == init + [last];
      assert forall i :: 0 <= i < |init| ==> init[i] == s[i];
    }
  }

  /** The first q kept entries are the first q entries exactly if none of these is marked; else the q-th one kept
      stood at place q or later. */
  lemma KeptShift(index: seq<Entry>, q: nat) returns (p: nat)
    requires 0 < q <= |Kept(index)| && !(forall i :: 0 <= i < q ==> !index[i].deleted)
    ensures q <= p < |index| && Kept(index)[q - 1] == index[p]
  {
    hide Kept;
    var a, b := index[..q], index[q..];
    assert index == a + b;
    KeptSplit(a, b);
    KeptAllLive(a);
    assert |Kept(a)| < q by { assert forall i :: 0 <= i < q ==> a[i] == index[i]; }
    p := KeptPlace(b, q - 1 - |Kept(a)|);
    assert b[p] == index[q + p];
    p := q + p;
  }

  lemma KeptPlace(index: seq<Entry>, k: nat) returns (p: nat)
    requires k < |Kept(index)|
    ensures p < |index| && index[p] == Kept(index)[k]
  {
    KeptMembers(index);
    hide Kept;
    assert Kept(index)[k] in Kept(index);
    p :| 0 <= p < |index| && index[p] == Kept(index)[k];
  }

  lemma KeptStart(index: seq<Entry>, q: nat)
    requires q <= |index| && forall i :: 0 <= i < q ==> !index[i].deleted
    ensures q <= |Kept(index)| && Kept(index)[..q] == index[..q]
  {
    var a, b := index[..q], index[q..];
    assert index == a + b;
    KeptSplit(a, b);
    assert forall i :: 0 <= i < q ==> a[i] == index[i];
    KeptAllLive(a);
  }

  // ----- the slots of a cut compaction

  /** The old last chunk is read in whatever slots are left to it. */
  predicate Legible(st: State, c: Config) {
    var n := |Kept(st.index)|;
    n <= Saved(st, c) && (n % CHUNK == 0 || n == Saved(st, c))
  }

  lemma CompactStart(st: State, c: Config, w: nat)
    requires Valid(st, c) && Counted(st.nvs) && Torn(st, c, Compact, w)
    ensures |CutState(st, c, Compact, w).index| == |Kept(st.index)| < |st.index| <= c.capacity
    ensures CutState(st, c, Compact, w).files == st.files
    ensures Saved(st, c) <= |st.index|
  {
    hide Increasing, UniqueLive, Stored;
    TornState(st, c, Compact, w);
  }

  lemma CompactSlot(st: State, c: Config, w: nat, j: nat)
    requires Valid(st, c) && Counted(st.nvs) && Torn(st, c, Compact, w) && j < |Kept(st.index)|
    ensures |CutState(st, c, Compact, w).index| == |Kept(st.index)|
    ensures CutState(st, c, Compact, w).index[j]
         == Pick(j / CHUNK < BlobsDone(st, c, Compact, w), Kept(st.index)[j],
                 LoadedSlot(st.nvs.value.blobs, |Kept(st.index)|, j))
  {
    CompactTarget(st, c);
    CompactStart(st, c, w);
    hide CutState, LoadedSlot, Valid, Torn, BlobsDone, Kept, Target, ChunkCount;
    TornSlot(st, c, Compact, w, j);
  }

  /** In the chunks that are written stand the kept entries. */
  lemma WrittenSlot(st: State, c: Config, w: nat, j: nat)
    requires Valid(st, c) && Counted(st.nvs) && Torn(st, c, Compact, w)
    requires j < |Kept(st.index)| && j / CHUNK < BlobsDone(st, c, Compact, w)
    ensures |CutState(st, c, Compact, w).index| == |Kept(st.index)|
    ensures CutState(st, c, Compact, w).index[j] == Kept(st.index)[j]
  {
    CompactSlot(st, c, w, j);
    hide CutState, LoadedSlot, Valid, Torn, BlobsDone, Kept;
  }

  /** In the others stand the old ones. */
  lemma UnwrittenSlot(st: State, c: Config, w: nat, j: nat)
    requires Valid(st, c) && Sound(st, c) && Counted(st.nvs) && Torn(st, c, Compact, w) && Legible(st, c)
    requires j < |Kept(st.index)| && j / CHUNK >= BlobsDone(st, c, Compact, w)
    ensures |CutState(st, c, Compact, w).index| == |Kept(st.index)| < |st.index|
    ensures CutState(st, c, Compact, w).index[j] == st.index[j]
  {
    CompactStart(st, c, w);
    CompactSlot(st, c, w, j);
    hide CutState, LoadedSlot, Valid, Torn, BlobsDone, Kept, Sound, Saved;
    if |Kept(st.index)| % CHUNK == 0 {
      FullChunk(st, c, |Kept(st.index)|, j);
    } else {
      OldSlot(st, c, |Kept(st.index)|, j);
    }
  }

  /** The last slot, where the old last chunk does not fit or is not long enough. */
  lemma LastBlank(st: State, c: Config, w: nat)
    requires Valid(st, c) && Sound(st, c) && Counted(st.nvs) && Torn(st, c, Compact, w) && !Legible(st, c)
    requires |Kept(st.index)| <= Saved(st, c) || !Leftover(st, c)
    ensures |CutState(st, c, Compact, w).index| == |Kept(st.index)| > 0
    ensures CutState(st, c, Compact, w).index[|Kept(st.index)| - 1] == Blank()
  {
    var n := |Kept(st.index)|;
    hide CutState, CallWrites, LoadedSlot, Valid, Torn, Kept, Sound, Saved, BlobsDone, Leftover, Target, ChunkCount, Blank,
      Counted, Legible;
    CompactStart(st, c, w);
    CompactTarget(st, c);
    NotLegible(st, c);
    LastSlot(st, c, n);
    TornSlot(st, c, Compact, w, n - 1);
  }

  lemma NotLegible(st: State, c: Config)
    requires !Legible(st, c)
    ensures var n := |Kept(st.index)|; n > 0 && n != Saved(st, c) && (n < Saved(st, c) ==> n % CHUNK != 0)
  {
  }

  lemma LastSlot(st: State, c: Config, n: nat)
    requires Valid(st, c) && Sound(st, c) && Counted(st.nvs) && 0 < n <= |st.index|
    requires (n < Saved(st, c) && n % CHUNK != 0) || (Saved(st, c) < n && !Leftover(st, c))
    ensures LoadedSlot(st.nvs.value.blobs, n, n - 1) == Blank() && (n - 1) / CHUNK == ChunkCount(n) - 1
  {
    SavedMost(st, c);
    LastIsLast(n);
    hide LoadedSlot, Valid, Sound, Saved, Leftover, ChunkCount, NearlyAll, Blank, Counted;
    if n < Saved(st, c) {
      LongChunk(st, c, n, n - 1);
    } else {
      BehindSlot(st, c, n, n - 1);
    }
  }

  lemma LastIsLast(n: nat)
    requires n > 0
    ensures (n - 1) / CHUNK == ChunkCount(n) - 1
    ensures n % CHUNK != 0 ==> (n - 1) / CHUNK == n / CHUNK
  {
  }

  // ----- which of them are valid

  /** A compaction that is cut while the index is written leaves a valid store if and only if the old last chunk can be
      read in the slots that are left and no entry has moved within the chunks that are written; a lone blank entry
      aside. */
  lemma TornCompactIff(st: State, c: Config, w: nat)
    requires Valid(st, c) && Sound(st, c) && Counted(st.nvs) && Torn(st, c, Compact, w)
    requires |Kept(st.index)| <= Saved(st, c) || !Leftover(st, c)
    ensures ChunkStart(BlobsDone(st, c, Compact, w)) <= |Kept(st.index)| < |st.index|
    ensures Valid(CutState(st, c, Compact, w), c) <==>
              || LoneBlank(st, c, Compact, w)
              || (Legible(st, c) && forall i :: 0 <= i < ChunkStart(BlobsDone(st, c, Compact, w)) ==> !st.index[i].deleted)
  {
    CompactStart(st, c, w);
    DoneInside(st, c, w);
    CompactTarget(st, c);
    if !Legible(st, c) {
      BlankIff(st, c, w);
    } else {
      LegibleNotLone(st, c, w);
      if forall i :: 0 <= i < ChunkStart(BlobsDone(st, c, Compact, w)) ==> !st.index[i].deleted {
        CompactUnmoved(st, c, w);
        CompactShort(st, c, w);
      } else {
        CompactMoved(st, c, w);
      }
    }
  }

  lemma CompactTarget(st: State, c: Config)
    ensures Target(st, c, Compact).index == Kept(st.index) && FileWrites(st, c, Compact) == []
  {
  }

  lemma DoneInside(st: State, c: Config, w: nat)
    requires Torn(st, c, Compact, w)
    ensures ChunkStart(BlobsDone(st, c, Compact, w)) <= |Kept(st.index)|
    ensures BlobsDone(st, c, Compact, w) > 0 ==> 0 < ChunkStart(BlobsDone(st, c, Compact, w)) < |Kept(st.index)|
  {
    TornBlobs(st, c, Compact, w);
    ChunkBelow(BlobsDone(st, c, Compact, w), |Kept(st.index)|);
  }

  lemma LegibleNotLone(st: State, c: Config, w: nat)
    requires Legible(st, c)
    ensures !LoneBlank(st, c, Compact, w)
  {
  }

  lemma BlankIff(st: State, c: Config, w: nat)
    requires Valid(st, c) && Sound(st, c) && Counted(st.nvs) && Torn(st, c, Compact, w) && !Legible(st, c)
    requires |Kept(st.index)| <= Saved(st, c) || !Leftover(st, c)
    ensures Valid(CutState(st, c, Compact, w), c) <==> LoneBlank(st, c, Compact, w)
  {
    var n := |Kept(st.index)|;
    LastBlank(st, c, w);
    CompactTarget(st, c);
    CompactStart(st, c, w);
    TargetNext(st, c, Compact);
    assert n == 1 ==> Saved(st, c) != 1;
    assert |st.index| <= c.capacity;
    hide CutState, Valid, Torn, Kept, Sound, Saved, Leftover, Legible, Target, LoneBlank, Blank;
    if n > 1 {
      BlankInvalid(CutState(st, c, Compact, w), c, n - 1);
      NotLone(st, c, Compact, w);
    } else {
      LoneIff(st, c, Compact, w);
    }
  }

  lemma UnmovedAt(st: State, c: Config, w: nat, j: nat)
    requires Valid(st, c) && Sound(st, c) && Counted(st.nvs) && Torn(st, c, Compact, w) && Legible(st, c)
    requires j < |Kept(st.index)|
    requires ChunkStart(BlobsDone(st, c, Compact, w)) <= |st.index|
    requires forall i :: 0 <= i < ChunkStart(BlobsDone(st, c, Compact, w)) ==> !st.index[i].deleted
    ensures |CutState(st, c, Compact, w).index| == |Kept(st.index)| < |st.index|
    ensures CutState(st, c, Compact, w).index[j] == st.index[j]
  {
    hide CutState, Sound, Torn, Valid, Kept, BlobsDone, Saved, Counted, Legible;
    CompactStart(st, c, w);
    var m := BlobsDone(st, c, Compact, w);
    if j / CHUNK < m {
      WrittenSlot(st, c, w, j);
      KeptStart(st.index, ChunkStart(m));
      ChunkInside(j, m);
      assert Kept(st.index)[..ChunkStart(m)][j] == st.index[..ChunkStart(m)][j];
    } else {
      UnwrittenSlot(st, c, w, j);
    }
  }

  /** What is left then is the beginning of the old index: all entries behind it are lost. */
  lemma CompactUnmoved(st: State, c: Config, w: nat)
    requires Valid(st, c) && Sound(st, c) && Counted(st.nvs) && Torn(st, c, Compact, w) && Legible(st, c)
    requires ChunkStart(BlobsDone(st, c, Compact, w)) <= |st.index|
    requires forall i :: 0 <= i < ChunkStart(BlobsDone(st, c, Compact, w)) ==> !st.index[i].deleted
    ensures |Kept(st.index)| < |st.index| && CutState(st, c, Compact, w).index == st.index[..|Kept(st.index)|]
    ensures CutState(st, c, Compact, w).files == st.files
  {
    var s, n := CutState(st, c, Compact, w), |Kept(st.index)|;
    hide CutState, Sound, Torn, Valid, Kept, BlobsDone, Saved, Counted, ChunkStart, Legible;
    CompactStart(st, c, w);
    forall j: nat | j < n ensures s.index[j] == st.index[j] {
      UnmovedAt(st, c, w, j);
    }
  }

  lemma ChunkInside(j: nat, m: nat)
    requires j / CHUNK < m
    ensures j < ChunkStart(m)
  {
  }

  lemma PrefixInOrder(index: seq<Entry>, n: nat, next: nat, more: nat, files: Files)
    requires n <= |index| && Increasing(index, next) && UniqueLive(index) && Stored(index, files) && next <= more
    ensures Increasing(index[..n], more) && UniqueLive(index[..n]) && Stored(index[..n], files)
  {
    hide Name;
    assert forall i :: 0 <= i < n ==> index[..n][i] == index[i];
  }

  lemma CompactShort(st: State, c: Config, w: nat)
    requires Valid(st, c) && Counted(st.nvs) && Torn(st, c, Compact, w) && Legible(st, c)
    requires CutState(st, c, Compact, w).index == st.index[..|Kept(st.index)|]
    ensures Valid(CutState(st, c, Compact, w), c)
  {
    var s, n := CutState(st, c, Compact, w), |Kept(st.index)|;
    CompactStart(st, c, w);
    TornNext(st, c, Compact, w);
    SavedEnough(st, c, n);
    CompactSame(st, c);
    StartedIff(PutAll(DiskOf(st), CallWrites(st, c, Compact)[..w]), c);
    hide Started, PutAll, CallWrites, Torn, Sound, Kept, LoadedNext, Increasing, UniqueLive, Stored, Valid, Target, Saved;
    var low := LoadedNext(st.nvs);
    assert st.index[..n][..n] == st.index[..n];
    PrefixInOrder(st.index[..n], n, low, s.next, st.files);
  }

  lemma CompactSame(st: State, c: Config)
    requires Valid(st, c)
    ensures Target(st, c, Compact).next == st.next && LoadedNext(st.nvs) <= st.next
  {
    hide Loaded, LoadedNext, Increasing, UniqueLive, Stored, Kept;
  }

  /** What is in flash is in order by the number in flash. */
  lemma SavedEnough(st: State, c: Config, n: nat)
    requires Valid(st, c) && n <= Saved(st, c)
    ensures n <= |st.index| && Increasing(st.index[..n], LoadedNext(st.nvs))
    ensures UniqueLive(st.index[..n]) && Stored(st.index[..n], st.files)
  {
    hide Loaded, LoadedNext, Name;
    var b := Loaded(st.nvs, c.capacity);
    assert forall i :: 0 <= i < n ==> st.index[..n][i] == st.index[i] == b[i];
  }

  lemma OutOfOrder(s: State, c: Config, q: nat)
    requires 0 < q < |s.index| && s.index[q].file <= s.index[q - 1].file
    ensures !Valid(s, c)
  {
    hide Backed, UniqueLive, Stored;
    assert !(s.index[q - 1].file < s.index[q].file);
  }

  lemma FilesUp(st: State, c: Config, q: nat, p: nat)
    requires Valid(st, c) && q <= p < |st.index|
    ensures st.index[q].file <= st.index[p].file
  {
    hide Backed, UniqueLive, Stored;
  }

  lemma CompactMoved(st: State, c: Config, w: nat)
    requires Valid(st, c) && Sound(st, c) && Counted(st.nvs) && Torn(st, c, Compact, w) && Legible(st, c)
    requires var q := ChunkStart(BlobsDone(st, c, Compact, w));
             q <= |st.index| && !(forall i :: 0 <= i < q ==> !st.index[i].deleted)
    ensures !Valid(CutState(st, c, Compact, w), c)
  {
    var s, q := CutState(st, c, Compact, w), ChunkStart(BlobsDone(st, c, Compact, w));
    DoneInside(st, c, w);
    MovedChunks(BlobsDone(st, c, Compact, w));
    hide CutState, CallWrites, Sound, Torn, Kept, BlobsDone, Valid, ChunkStart, Saved, Counted, Legible;
    MovedSlots(st, c, w, q);
    var p := KeptShift(st.index, q);
    FilesUp(st, c, q, p);
    OutOfOrder(s, c, q);
  }

  /** The two sides of the boundary between the new chunks and the old ones. */
  lemma MovedSlots(st: State, c: Config, w: nat, q: nat)
    requires Valid(st, c) && Sound(st, c) && Counted(st.nvs) && Torn(st, c, Compact, w) && Legible(st, c)
    requires 0 < q < |Kept(st.index)|
    requires (q - 1) / CHUNK < BlobsDone(st, c, Compact, w) <= q / CHUNK
    ensures q < |CutState(st, c, Compact, w).index| == |Kept(st.index)| < |st.index|
    ensures CutState(st, c, Compact, w).index[q - 1] == Kept(st.index)[q - 1]
    ensures CutState(st, c, Compact, w).index[q] == st.index[q]
  {
    hide CutState, CallWrites, Sound, Torn, Kept, BlobsDone, Valid, Saved, Counted, Legible;
    WrittenSlot(st, c, w, q - 1);
    UnwrittenSlot(st, c, w, q);
  }

  lemma MovedChunks(m: nat)
    ensures m > 0 ==> (ChunkStart(m) - 1) / CHUNK < m
    ensures ChunkStart(m) / CHUNK == m && (m == 0 ==> ChunkStart(m) == 0)
  {
  }

  // ----- how much is lost

  /** Where the new index does not fill its last chunk and flash held more, every entry of that chunk comes back blank:
      a compaction of sixty entries to fifty-nine that is cut leaves nine live blank entries. */
  lemma LastChunkBlank(st: State, c: Config, w: nat, j: nat)
    requires Valid(st, c) && Sound(st, c) && Counted(st.nvs) && Torn(st, c, Compact, w)
    requires |Kept(st.index)| < Saved(st, c) && |Kept(st.index)| / CHUNK * CHUNK <= j < |Kept(st.index)|
    ensures |CutState(st, c, Compact, w).index| == |Kept(st.index)| && CutState(st, c, Compact, w).index[j] == Blank()
  {
    var n := |Kept(st.index)|;
    InLastChunk(n, j);
    hide CutState, CallWrites, LoadedSlot, Valid, Torn, Kept, Sound, Saved, BlobsDone, Target, ChunkCount, Blank, Counted;
    CompactStart(st, c, w);
    CompactTarget(st, c);
    LongChunk(st, c, n, j);
    TornSlot(st, c, Compact, w, j);
  }

  lemma InLastChunk(n: nat, j: nat)
    requires n / CHUNK * CHUNK <= j < n
    ensures j / CHUNK == n / CHUNK == ChunkCount(n) - 1
  {
  }

  /** Where the first half of an index of whole chunks is marked, a compaction that is cut before its first blob leaves
      no event at all, although the store is valid. */
  lemma CompactLosesAll(st: State, c: Config, w: nat)
    requires Valid(st, c) && Sound(st, c) && Counted(st.nvs) && Torn(st, c, Compact, w) && Saved(st, c) == |st.index|
    requires w <= 2 && |Kept(st.index)| % CHUNK == 0
    requires forall i :: 0 <= i < |Kept(st.index)| ==> st.index[i].deleted
    ensures Valid(CutState(st, c, Compact, w), c)
    ensures Records(CutState(st, c, Compact, w).index, CutState(st, c, Compact, w).files) == []
    ensures |Records(st.index, st.files)| == |Kept(st.index)|
  {
    var s, n := CutState(st, c, Compact, w), |Kept(st.index)|;
    TornCompactIff(st, c, w);
    CompactUnmoved(st, c, w);
    RecordsKept(st.index, st.files);
    NoneLive(st.index[..n], s.files);
  }

  lemma {:induction false} NoneLive(index: seq<Entry>, files: Files)
    requires forall i :: 0 <= i < |index| ==> index[i].deleted
    ensures Records(index, files) == []
  {
    if index != [] { NoneLive(index[..|index| - 1], files); }
  }
}
