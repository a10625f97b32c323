/** What the answer to a query is, told from the fields of the entries and the contents of the files. */
module StorageAnswers {
  import opened Octets
  import opened StorageSpec

  /** A live entry of the asked kind and author, if these are asked for, that is not past its time and whose file holds
      between one byte and 8192. */
  predicate Wanted(e: Entry, files: Files, q: Query, now: U32) {
    && !e.deleted
    && (q.kind > 0 ==> e.kind == q.kind)
    && (q.author.Some? ==> e.author == q.author.value)
    && (e.expires == 0 || now <= e.expires)
    && Name(e) in files && 1 <= |files[Name(e)]| <= 8192
  }

  /** No more than 500 texts, and 100 where the query does not say. */
  function Most(limit: int): nat { if limit > 500 then 500 else if limit <= 0 then 100 else limit }

  /** The texts are those of wanted entries at these places, the newest first; every other wanted entry is older than all
      of them, and there are only such ones when no more texts may be given. */
  ghost predicate AnswersFrom(index: seq<Entry>, files: Files, q: Query, now: U32, most: nat, texts: seq<seq<Byte>>, places: seq<nat>) {
    && |places| == |texts| <= most
    && (forall n :: 0 <= n < |places| ==>
          places[n] < |index| && Wanted(index[places[n]], files, q, now) && texts[n] == Content(files, Name(index[places[n]])))
    && (forall n, m :: 0 <= n < m < |places| ==> places[n] > places[m])
    && (forall i: nat :: i < |index| && Wanted(index[i], files, q, now) && i !in places ==>
          |texts| == most && forall n :: 0 <= n < |places| ==> places[n] > i)
  }

  ghost predicate Answers(index: seq<Entry>, files: Files, q: Query, now: U32, texts: seq<seq<Byte>>) {
    exists places: seq<nat> :: AnswersFrom(index, files, q, now, Most(q.limit), texts, places)
  }

  lemma HitIsWanted(files: Files, q: Query, now: U32, e: Entry)
    ensures Hit(files, q, now, e) <==> Wanted(e, files, q, now)
  {
    hide Name;
  }

  /** The scan answers like that. */
  lemma {:induction false} ScanAnswers(index: seq<Entry>, files: Files, q: Query, now: U32, room: nat) returns (places: seq<nat>)
    ensures AnswersFrom(index, files, q, now, room, Scan(index, files, q, now, room), places)
  {
    hide Hit, Wanted, Name, Content;
    if index == [] || room == 0 {
      places := [];
    } else {
      var init, last := index[..|index| - 1], index[|index| - 1];
      assert forall i :: 0 <= i < |init| ==> init[i] == index[i];
      HitIsWanted(files, q, now, last);
      if Hit(files, q, now, last) {
        places := ScanAnswers(init, files, q, now, room - 1);
        OneNewer(index, files, q, now, room, Scan(init, files, q, now, room - 1), places);
        places := [|init|] + places;
      } else {
        places := ScanAnswers(init, files, q, now, room);
      }
    }
  }

  lemma OneNewer(index: seq<Entry>, files: Files, q: Query, now: U32, room: nat, texts: seq<seq<Byte>>, places: seq<nat>)
    requires index != [] && room > 0 && Wanted(index[|index| - 1], files, q, now)
    requires AnswersFrom(index[..|index| - 1], files, q, now, room - 1, texts, places)
    ensures AnswersFrom(index, files, q, now, room, [Content(files, Name(index[|index| - 1]))] + texts, [|index| - 1] + places)
  {
    hide Name, Wanted, Content;
    var init, last := index[..|index| - 1], index[|index| - 1];
    var ps, out := [|init|] + places, [Content(files, Name(last))] + texts;
    forall n | 0 <= n < |ps|
      ensures ps[n] < |index| && Wanted(index[ps[n]], files, q, now) && out[n] == Content(files, Name(index[ps[n]]))
    {
      if n > 0 { assert ps[n] == places[n - 1] && out[n] == texts[n - 1] && index[ps[n]] == init[places[n - 1]]; }
    }
    forall n, m | 0 <= n < m < |ps| ensures ps[n] > ps[m] {
      assert ps[m] == places[m - 1];
      if n > 0 { assert ps[n] == places[n - 1]; }
    }
    forall i: nat | i < |index| && Wanted(index[i], files, q, now) && i !in ps
      ensures |out| == room && forall n :: 0 <= n < |ps| ==> ps[n] > i
    {
      NotAmong(i, |init|, places);
      assert index[i] == init[i];
    }
  }

  lemma NotAmong(i: nat, first: nat, places: seq<nat>)
    requires i !in [first] + places
    ensures i != first && i !in places
  {
    assert ([first] + places)[0] == first;
  }

  lemma QueryAnswers(index: seq<Entry>, files: Files, q: Query, now: U32)
    ensures Answers(index, files, q, now, Scan(index, files, q, now, Limit(q.limit)))
  {
    hide Scan;
    var places := ScanAnswers(index, files, q, now, Limit(q.limit));
    assert Limit(q.limit) == Most(q.limit);
  }
}
