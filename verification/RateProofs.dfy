/** No connection gets more through in any minute than twice its limit, whatever the others do. */
module RateProofs {
  import opened RateSpec

  lemma OwnersFacts(calls: seq<Call>)
    ensures |Owners(calls)| <= 16
    ensures forall i, j :: 0 <= i < j < |Owners(calls)| ==> Owners(calls)[i] != Owners(calls)[j]
  {
  }

  lemma {:induction false} OwnsSome(calls: seq<Call>, fd: int)
    ensures fd in Owners(calls) ==> Own(calls, fd) != []
    ensures |Owners(calls)| < 16 && Own(calls, fd) != [] ==> fd in Owners(calls)
  {
    if calls != [] {
      OwnsSome(calls[..|calls| - 1], fd);
    }
  }

  lemma {:induction false} AloneKeeps(cfg: Config, own: seq<Call>, fd: int)
    requires own != [] && forall c :: c in own ==> c.fd == fd
    ensures Alone(cfg, own).active && Alone(cfg, own).fd == fd
  {
    var init, last := own[..|own| - 1], own[|own| - 1];
    assert last in own;
    if |own| > 1 {
      AloneKeeps(cfg, init, fd);
    }
  }

  lemma {:induction false} OwnIsOwn(calls: seq<Call>, fd: int)
    ensures forall c :: c in Own(calls, fd) ==> c.fd == fd
  {
    if calls != [] { OwnIsOwn(calls[..|calls| - 1], fd); }
  }

  /** The table after a run, told from each connection's own calls. */
  function Table(cfg: Config, calls: seq<Call>): (bs: seq<Bucket>)
    ensures |bs| == BUCKETS
  {
    seq(BUCKETS, i requires 0 <= i < BUCKETS =>
      if i < |Owners(calls)| then Alone(cfg, Own(calls, Owners(calls)[i])) else Blank())
  }

  lemma TableAt(cfg: Config, calls: seq<Call>, i: nat)
    requires i < BUCKETS
    ensures i < |Owners(calls)| ==>
              var b := Table(cfg, calls)[i];
              b == Alone(cfg, Own(calls, Owners(calls)[i])) && b.active && b.fd == Owners(calls)[i]
    ensures i >= |Owners(calls)| ==> Table(cfg, calls)[i] == Blank()
  {
    hide Alone, Own, Owners;
    var os := Owners(calls);
    if i < |os| {
      OwnersFacts(calls);
      OwnsSome(calls, os[i]);
      OwnIsOwn(calls, os[i]);
      AloneKeeps(cfg, Own(calls, os[i]), os[i]);
    }
  }

  lemma OwnMore(calls: seq<Call>, fd: int)
    requires calls != []
    ensures var init, last := calls[..|calls| - 1], calls[|calls| - 1];
            Own(calls, fd) == if last.fd == fd then Own(init, fd) + [last] else Own(init, fd)
  {
  }

  lemma AloneMore(cfg: Config, own: seq<Call>, c: Call)
    ensures Alone(cfg, own + [c]) == Touched(if own == [] then Opened(c.fd, c.now) else Alone(cfg, own), cfg, c)
  {
    assert (own + [c])[..|own|] == own;
  }

  /** Where the caller's bucket is: at its place among the owners, or the first free one. */
  lemma Place(cfg: Config, calls: seq<Call>, fd: int)
    ensures var bs, os := Table(cfg, calls), Owners(calls);
            && |os| <= 16
            && (fd in os ==> Find(bs, fd) < |os| && os[Find(bs, fd)] == fd)
            && (fd !in os ==> Find(bs, fd) == 16)
            && FirstFree(bs) == |os|
  {
    hide Table, Alone, Own, Owners;
    var bs, os := Table(cfg, calls), Owners(calls);
    OwnersFacts(calls);
    forall j: nat | j < BUCKETS ensures j < |os| ==> bs[j].active && bs[j].fd == os[j]
      ensures j >= |os| ==> !bs[j].active
    {
      TableAt(cfg, calls, j);
    }
    if fd in os {
      var j :| 0 <= j < |os| && os[j] == fd;
      assert bs[j].active && bs[j].fd == fd;
    }
    var n := FirstFree(bs);
    var here := if n < BUCKETS then bs[n].active else false;
    var there := if |os| < BUCKETS then bs[|os|].active else false;
  }

  /** One call moves one slot of the table the way the caller's own history moves. */
  lemma TableStepAt(cfg: Config, calls: seq<Call>, j: nat)
    requires calls != [] && j < BUCKETS
    ensures var init, c := calls[..|calls| - 1], calls[|calls| - 1];
            Check(Table(cfg, init), cfg, c).0[j] == Table(cfg, calls)[j]
  {
    hide Alone, Own, Touched, Table;
    var init, c := calls[..|calls| - 1], calls[|calls| - 1];
    var bs, os, os' := Table(cfg, init), Owners(init), Owners(calls);
    Place(cfg, init, c.fd);
    OwnersFacts(calls);
    TableAt(cfg, init, j);
    TableAt(cfg, calls, j);
    OwnsSome(init, c.fd);
    AloneMore(cfg, Own(init, c.fd), c);
    if j < |os'| { OwnMore(calls, os'[j]); }
  }

  lemma TableStep(cfg: Config, calls: seq<Call>)
    requires calls != []
    ensures var init, c := calls[..|calls| - 1], calls[|calls| - 1];
            Check(Table(cfg, init), cfg, c).0 == Table(cfg, calls)
  {
    hide Table, Touched;
    var init, c := calls[..|calls| - 1], calls[|calls| - 1];
    forall j: nat | j < BUCKETS ensures Check(Table(cfg, init), cfg, c).0[j] == Table(cfg, calls)[j] {
      TableStepAt(cfg, calls, j);
    }
  }

  /** The limiter keeps the connections apart: its table is what each of the first sixteen would have made alone. */
  lemma {:induction false} RunIsTable(cfg: Config, calls: seq<Call>)
    ensures Run(cfg, calls) == Table(cfg, calls)
  {
    hide Check, Table;
    if calls == [] {
      EmptyTable(cfg);
    } else {
      RunIsTable(cfg, calls[..|calls| - 1]);
      TableStep(cfg, calls);
    }
  }

  lemma EmptyTable(cfg: Config)
    ensures Run(cfg, []) == Table(cfg, [])
  {
  }

  // ----- answers

  /** A call is answered from the caller's own history; a seventeenth connection is never let through. */
  lemma AnswerIs(cfg: Config, calls: seq<Call>, k: nat)
    requires k < |calls|
    ensures var c, own := calls[k], Own(calls[..k], calls[k].fd);
            Answer(cfg, calls, k) <==>
              && c.fd in Owners(calls[..k + 1])
              && Admits(Rolled(if own == [] then Opened(c.fd, c.now) else Alone(cfg, own), c.now), cfg, c.kind)
  {
    hide Table, Alone, Own, Touched, Rolled, Admits, Run;
    var init, c := calls[..k], calls[k];
    var os := Owners(init);
    RunIsTable(cfg, init);
    Place(cfg, init, c.fd);
    OwnsSome(init, c.fd);
    assert calls[..k + 1][..k] == init;
    if c.fd in os { TableAt(cfg, init, Find(Table(cfg, init), c.fd)); }
  }

  // ----- the sliding minute

  /** What is left of the window of a connection when a span that began at a given time has let through so many. */
  predicate WithinTwo(b: Bucket, limit: nat, k: Kind, since: Seconds, admitted: nat) {
    && b.Count(k) <= limit
    && (admitted == 0 || since < b.start + WINDOW)
    && (admitted <= b.Count(k) || (since < b.start && admitted <= limit + b.Count(k)))
  }

  /** One own call inside a span of sixty seconds by the clock keeps the bound. */
  lemma SpanStep(b: Bucket, cfg: Config, c: Call, k: Kind, since: Seconds, admitted: nat)
    requires WithinTwo(b, cfg.Limit(k), k, since, admitted) && b.start <= c.now
    requires since <= c.now <= since + WINDOW
    ensures var yes := c.kind == k && Admits(Rolled(b, c.now), cfg, c.kind);
            WithinTwo(Touched(b, cfg, c), cfg.Limit(k), k, since, admitted + if yes then 1 else 0)
    ensures Touched(b, cfg, c).start <= c.now
  {
  }

  /** A bucket forgets its counts exactly when its window began sixty seconds ago or longer, on the 32-bit clock. */
  lemma WindowIs(b: Bucket, now: Seconds)
    ensures (now - b.start) % 0x1_0000_0000 < 60 ==> Rolled(b, now) == b
    ensures (now - b.start) % 0x1_0000_0000 >= 60 ==> Rolled(b, now) == Bucket(b.fd, 0, 0, now, b.active)
  {
  }

  /** Counts stay within the limits and windows begin in the past. */
  lemma {:induction false} AloneBounded(cfg: Config, calls: seq<Call>, fd: int, k: Kind)
    requires InOrder(calls) && Own(calls, fd) != []
    ensures var b := Alone(cfg, Own(calls, fd)); (if k == Event then b.events <= cfg.events else b.reqs <= cfg.reqs) && b.start <= calls[|calls| - 1].now
  {
    hide Alone, Touched, Rolled, Own;
    OwnOfNone(fd);
    var init, c := calls[..|calls| - 1], calls[|calls| - 1];
    OwnMore(calls, fd);
    AloneMore(cfg, Own(init, fd), c);
    if Own(init, fd) != [] {
      AloneBounded(cfg, init, fd, k);
      TouchedBounded(Alone(cfg, Own(init, fd)), cfg, c, k);
    } else {
      TouchedBounded(Opened(c.fd, c.now), cfg, c, k);
    }
  }

  lemma OwnOfNone(fd: int)
    ensures Own([], fd) == []
  {
  }

  lemma TouchedBounded(b: Bucket, cfg: Config, c: Call, k: Kind)
    requires b.Count(k) <= cfg.Limit(k) && b.start <= c.now
    ensures Touched(b, cfg, c).Count(k) <= cfg.Limit(k) && Touched(b, cfg, c).start <= c.now
  {
  }

  /** Where a connection stands before call n, having begun to count at call i. */
  predicate Stands(cfg: Config, calls: seq<Call>, fd: int, k: Kind, i: nat, n: nat)
    requires i <= n <= |calls| && i < |calls|
  {
    if fd in Owners(calls[..n]) then
      WithinTwo(Alone(cfg, Own(calls[..n], fd)), cfg.Limit(k), k, calls[i].now, Admitted(cfg, calls, fd, k, i, n))
    else
      Admitted(cfg, calls, fd, k, i, n) == 0
  }

  lemma StandsStep(cfg: Config, calls: seq<Call>, fd: int, k: Kind, i: nat, n: nat)
    requires InOrder(calls) && i <= n < |calls| && calls[n].now <= calls[i].now + WINDOW
    requires Stands(cfg, calls, fd, k, i, n)
    ensures Stands(cfg, calls, fd, k, i, n + 1)
  {
    hide Owners, Own, Alone, Touched, Rolled, Admits, WithinTwo, Answer;
    var c, init, more := calls[n], calls[..n], calls[..n + 1];
    assert more[..n] == init;
    OwnersMore(more);
    if c.fd == fd {
      OwnMore(more, fd);
      AnswerIs(cfg, calls, n);
      AloneMore(cfg, Own(init, fd), c);
      OwnsSome(init, fd);
      if fd in Owners(more) {
        if fd in Owners(init) {
          OwnOfNone(fd);
          AloneBounded(cfg, init, fd, k);
          assert calls[n - 1].now <= c.now;
          SpanStep(Alone(cfg, Own(init, fd)), cfg, c, k, calls[i].now, Admitted(cfg, calls, fd, k, i, n));
        } else {
          FreshWithin(cfg, c, k, calls[i].now);
          SpanStep(Opened(c.fd, c.now), cfg, c, k, calls[i].now, 0);
        }
      }
    } else {
      OwnMore(more, fd);
    }
  }

  lemma FreshWithin(cfg: Config, c: Call, k: Kind, since: Seconds)
    ensures WithinTwo(Opened(c.fd, c.now), cfg.Limit(k), k, since, 0)
  {
  }

  lemma OwnersMore(calls: seq<Call>)
    requires calls != []
    ensures var before, fd := Owners(calls[..|calls| - 1]), calls[|calls| - 1].fd;
            Owners(calls) == if fd in before || |before| >= BUCKETS then before else before + [fd]
  {
  }

  lemma StandsFirst(cfg: Config, calls: seq<Call>, fd: int, k: Kind, i: nat)
    requires InOrder(calls) && i < |calls|
    ensures Stands(cfg, calls, fd, k, i, i)
  {
    hide Alone, Own, Owners;
    var before := calls[..i];
    OwnsSome(before, fd);
    if fd in Owners(before) { AloneBounded(cfg, before, fd, k); }
  }

  lemma {:induction false} StandsAfter(cfg: Config, calls: seq<Call>, fd: int, k: Kind, i: nat, n: nat)
    requires InOrder(calls) && i <= n <= |calls| && i < |calls| && (i < n ==> calls[n - 1].now <= calls[i].now + WINDOW)
    ensures Stands(cfg, calls, fd, k, i, n)
  {
    if i == n {
      StandsFirst(cfg, calls, fd, k, i);
    } else {
      hide Stands;
      StandsAfter(cfg, calls, fd, k, i, n - 1);
      StandsStep(cfg, calls, fd, k, i, n - 1);
    }
  }

  /** In any run whose clock does not go back, a span in which it advances by at most sixty lets through at most twice
      the limit of each connection and kind. */
  lemma SlidingMinute(cfg: Config, calls: seq<Call>, fd: int, k: Kind, i: nat, n: nat)
    requires InOrder(calls) && i < n <= |calls| && calls[n - 1].now - calls[i].now <= 60
    ensures Admitted(cfg, calls, fd, k, i, n) <= 2 * (if k == Event then cfg.events else cfg.reqs)
  {
    hide Alone, Own;
    StandsAfter(cfg, calls, fd, k, i, n);
  }

  /** The clock shows the whole seconds of a timer in microseconds. */
  predicate Shows(calls: seq<Call>, micros: seq<nat>) {
    |calls| == |micros| && forall i :: 0 <= i < |calls| ==> calls[i].now == micros[i] / 1_000_000
  }

  /** So the bound holds in every real span of up to a minute, to the microsecond. */
  lemma RealMinute(cfg: Config, calls: seq<Call>, micros: seq<nat>, fd: int, k: Kind, i: nat, n: nat)
    requires Shows(calls, micros) && forall a, b :: 0 <= a < b < |micros| ==> micros[a] <= micros[b]
    requires i < n <= |calls| && micros[n - 1] - micros[i] <= 60_000_000
    ensures Admitted(cfg, calls, fd, k, i, n) <= 2 * (if k == Event then cfg.events else cfg.reqs)
  {
    SlidingMinute(cfg, calls, fd, k, i, n);
  }

  // ----- the bound is reached

  function Other(k: Kind): Kind { if k.Event? then Req else Event }

  /** A connection that opens a window with a call of the other kind and then uses up three windows: in the last second
      of the first, at the start of the second and at the start of the third. */
  function When(limit: nat, m: nat): Seconds { if m <= limit then 59 else if m <= 2 * limit then 60 else 120 }

  function Burst(cfg: Config, fd: int, k: Kind, m: nat): (calls: seq<Call>)
    ensures |calls| == m + 1
  {
    if m == 0 then [Call(fd, Other(k), 0)]
    else Burst(cfg, fd, k, m - 1) + [Call(fd, k, When(cfg.Limit(k), m))]
  }

  lemma {:induction false} BurstFacts(cfg: Config, fd: int, k: Kind, m: nat)
    ensures Own(Burst(cfg, fd, k, m), fd) == Burst(cfg, fd, k, m) && Owners(Burst(cfg, fd, k, m)) == [fd]
  {
    hide Own, Owners;
    var calls := Burst(cfg, fd, k, m);
    OwnMore(calls, fd);
    OwnersMore(calls);
    if m > 0 {
      BurstFacts(cfg, fd, k, m - 1);
      assert calls[..m] == Burst(cfg, fd, k, m - 1);
    } else {
      assert calls[..0] == [];
      OwnOfNone(fd);
      OwnersOfNone();
    }
  }

  lemma {:induction false} BurstTimes(cfg: Config, fd: int, k: Kind, m: nat, j: nat)
    requires j <= m
    ensures Burst(cfg, fd, k, m)[j].now == if j == 0 then 0 else When(cfg.Limit(k), j)
  {
    if j < m { BurstTimes(cfg, fd, k, m - 1, j); }
  }

  lemma OwnersOfNone()
    ensures Owners([]) == []
  {
  }

  lemma {:induction false} AdmittedPrefix(cfg: Config, calls: seq<Call>, fd: int, k: Kind, i: nat, n: nat)
    requires i <= n < |calls|
    ensures Admitted(cfg, calls, fd, k, i, n) == Admitted(cfg, calls[..|calls| - 1], fd, k, i, n)
  {
    hide Run, Check;
    if i < n {
      AdmittedPrefix(cfg, calls, fd, k, i, n - 1);
      assert calls[..|calls| - 1][..n - 1] == calls[..n - 1];
    }
  }

  /** The bucket after so many calls of the burst. */
  predicate Burnt(b: Bucket, limit: nat, k: Kind, m: nat) {
    if m <= limit then b.start == 0 && b.Count(k) == m
    else if m <= 2 * limit then b.start == 60 && b.Count(k) == m - limit
    else b.start == 120 && b.Count(k) == m - 2 * limit
  }

  lemma BurntStep(b: Bucket, cfg: Config, fd: int, k: Kind, m: nat)
    requires 0 < m <= 3 * cfg.Limit(k) && Burnt(b, cfg.Limit(k), k, m - 1)
    ensures var c := Call(fd, k, When(cfg.Limit(k), m));
            Burnt(Touched(b, cfg, c), cfg.Limit(k), k, m) && Admits(Rolled(b, c.now), cfg, k)
  {
  }

  lemma BurntFirst(cfg: Config, fd: int, k: Kind)
    ensures Burnt(Touched(Opened(fd, 0), cfg, Call(fd, Other(k), 0)), cfg.Limit(k), k, 0)
  {
  }

  /** Every call of the burst but the first is let through. */
  lemma {:induction false} BurstAdmitted(cfg: Config, fd: int, k: Kind, m: nat)
    requires m <= 3 * cfg.Limit(k)
    ensures Admitted(cfg, Burst(cfg, fd, k, m), fd, k, 1, m + 1) == m
    ensures Burnt(Alone(cfg, Burst(cfg, fd, k, m)), cfg.Limit(k), k, m)
  {
    hide Answer, Owners, Own, Run, Touched, Burnt, Alone, Admits, Rolled;
    var calls := Burst(cfg, fd, k, m);
    BurstFacts(cfg, fd, k, m);
    if m > 0 {
      var init, c := Burst(cfg, fd, k, m - 1), calls[m];
      assert calls[..m] == init && calls[..m + 1] == calls;
      BurstFacts(cfg, fd, k, m - 1);
      BurstAdmitted(cfg, fd, k, m - 1);
      AnswerIs(cfg, calls, m);
      AloneMore(cfg, init, c);
      BurntStep(Alone(cfg, init), cfg, fd, k, m);
      AdmittedPrefix(cfg, calls, fd, k, 1, m);
    } else {
      AloneMore(cfg, [], calls[0]);
      BurntFirst(cfg, fd, k);
      assert [] + [calls[0]] == calls;
    }
  }

  lemma BurstInOrder(cfg: Config, fd: int, k: Kind, m: nat)
    ensures InOrder(Burst(cfg, fd, k, m))
  {
    hide Burst;
    var calls := Burst(cfg, fd, k, m);
    forall i, j | 0 <= i < j < |calls| ensures calls[i].now <= calls[j].now {
      BurstTimes(cfg, fd, k, m, i);
      BurstTimes(cfg, fd, k, m, j);
    }
  }

  /** For every configuration and kind, a span in which the clock advances by one second lets through all of twice the limit. */
  lemma TwiceIsReached(cfg: Config, fd: int, k: Kind)
    requires (if k == Event then cfg.events else cfg.reqs) > 0
    ensures var n := 2 * (if k == Event then cfg.events else cfg.reqs); var calls := Burst(cfg, fd, k, n);
            && InOrder(calls) && calls[n].now - calls[1].now == 1
            && Admitted(cfg, calls, fd, k, 1, n + 1) == 2 * (if k == Event then cfg.events else cfg.reqs)
  {
    hide Burst, Admitted;
    var n := 2 * cfg.Limit(k);
    BurstInOrder(cfg, fd, k, n);
    BurstTimes(cfg, fd, k, n, n);
    BurstTimes(cfg, fd, k, n, 1);
    BurstAdmitted(cfg, fd, k, n);
  }

  /** And one in which it advances by sixty-one, three times the limit: sixty seconds are the longest span for which
      twice the limit is a bound. */
  lemma ThriceInSixtyOne(cfg: Config, fd: int, k: Kind)
    requires (if k == Event then cfg.events else cfg.reqs) > 0
    ensures var n := 3 * (if k == Event then cfg.events else cfg.reqs); var calls := Burst(cfg, fd, k, n);
            && InOrder(calls) && calls[n].now - calls[1].now == 61
            && Admitted(cfg, calls, fd, k, 1, n + 1) == 3 * (if k == Event then cfg.events else cfg.reqs)
  {
    hide Burst, Admitted;
    var n := 3 * cfg.Limit(k);
    BurstInOrder(cfg, fd, k, n);
    BurstTimes(cfg, fd, k, n, n);
    BurstTimes(cfg, fd, k, n, 1);
    BurstAdmitted(cfg, fd, k, n);
  }
}
