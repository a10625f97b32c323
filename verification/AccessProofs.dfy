/** What every run of the access control keeps. */
module AccessProofs {
  import opened AccessSpec
  import opened Widths

  // ----- lists of addresses

  /** Removing by swapping with the last element removes the address and nothing else. */
  lemma SwapRemoveKeeps(s: seq<Ip>, ip: Ip)
    requires Distinct(s)
    ensures Distinct(SwapRemove(s, ip))
    ensures |SwapRemove(s, ip)| == if ip in s then |s| - 1 else |s|
    ensures forall x :: x in SwapRemove(s, ip) <==> x in s && x != ip
  {
    var i, n := IndexOf(s, ip), |s| - 1;
    if i < |s| {
      var t := SwapRemove(s, ip);
      assert |t| == n && forall k :: 0 <= k < n ==> t[k] == if k == i then s[n] else s[k];
      forall x | x in s && x != ip ensures x in t {
        var k :| 0 <= k < |s| && s[k] == x;
        assert t[if k == n then i else k] == x;
      }
    }
  }

  lemma {:induction false} ActivesUpdate(ss: seq<Session>, i: nat, s: Session)
    requires i < |ss|
    ensures Actives(ss[i := s]) == Actives(ss) + (if s.active then 1 else 0) - (if ss[i].active then 1 else 0)
  {
    if i == 0 {
      assert ss[0 := s][1..] == ss[1..];
    } else {
      ActivesUpdate(ss[1..], i - 1, s);
      assert ss[i := s][1..] == ss[1..][i - 1 := s];
    }
  }

  /** The table is full exactly when no slot is free. */
  lemma {:induction false} ActivesFull(ss: seq<Session>)
    ensures Actives(ss) <= |ss|
    ensures Actives(ss) == |ss| <==> FirstFree(ss) == |ss|
  {
    if ss != [] { ActivesFull(ss[1..]); }
  }

  // ----- the list keeps pace with the slots

  lemma ListsDrop(s: seq<Ip>, ss: seq<Session>, i: nat)
    requires i < |ss| && ss[i].active && OneEach(ss) && Lists(s, ss)
    ensures Lists(SwapRemove(s, ss[i].ip), ss[i := ss[i].(active := false)])
  {
    hide SwapRemove, Actives;
    var ip, ss' := ss[i].ip, ss[i := ss[i].(active := false)];
    SwapRemoveKeeps(s, ip);
    ActivesUpdate(ss, i, ss[i].(active := false));
    assert Holds(ss, ip);
    forall x ensures Holds(ss', x) <==> Holds(ss, x) && x != ip {
      if Holds(ss, x) && x != ip {
        var k :| 0 <= k < |ss| && ss[k].active && ss[k].ip == x;
        assert ss'[k] == ss[k];
      }
      if Holds(ss', x) {
        var k :| 0 <= k < |ss'| && ss'[k].active && ss'[k].ip == x;
        assert ss'[k] == ss[k];
      }
    }
  }

  lemma ListsAdd(s: seq<Ip>, ss: seq<Session>, i: nat, n: Session)
    requires i < |ss| && !ss[i].active && n.active && !Holds(ss, n.ip) && Lists(s, ss)
    ensures Lists(s + [n.ip], ss[i := n])
  {
    hide Actives;
    var ss' := ss[i := n];
    ActivesUpdate(ss, i, n);
    forall x ensures Holds(ss', x) <==> Holds(ss, x) || x == n.ip {
      if Holds(ss, x) {
        var k :| 0 <= k < |ss| && ss[k].active && ss[k].ip == x;
        assert ss'[k] == ss[k];
      }
      assert ss'[i] == n;
      if Holds(ss', x) {
        var k :| 0 <= k < |ss'| && ss'[k].active && ss'[k].ip == x;
        assert k == i || ss'[k] == ss[k];
      }
    }
  }

  lemma ListsExtend(s: seq<Ip>, ss: seq<Session>, i: nat, n: Session)
    requires i < |ss| && ss[i].active && n.active && n.ip == ss[i].ip && Lists(s, ss)
    ensures Lists(s, ss[i := n])
  {
    hide Actives;
    var ss' := ss[i := n];
    ActivesUpdate(ss, i, n);
    forall x ensures Holds(ss', x) <==> Holds(ss, x) {
      if Holds(ss, x) {
        var k :| 0 <= k < |ss| && ss[k].active && ss[k].ip == x;
        assert ss'[k].active && ss'[k].ip == x;
      }
      if Holds(ss', x) {
        var k :| 0 <= k < |ss'| && ss'[k].active && ss'[k].ip == x;
        assert ss[k].active && ss[k].ip == x;
      }
    }
  }

  // ----- every operation keeps the tables together

  lemma RevokeSlotCoherent(st: State, i: nat)
    requires Coherent(st) && i < |st.sessions|
    ensures Coherent(RevokeSlot(st, i))
    ensures RevokeSlot(st, i).sessions == st.sessions[i := st.sessions[i].(active := false)]
    ensures st.sessions[i].active ==> RevokeSlot(st, i).clients == SwapRemove(st.clients, st.sessions[i].ip)
  {
    hide Lists, SwapRemove, Actives;
    var ss, s := st.sessions, st.sessions[i];
    if s.active {
      Listed(st, s.ip);
      assert ss[i].ip == s.ip;
      ListsDrop(st.clients, ss, i);
      ListsDrop(st.auth, ss, i);
      ActivesUpdate(ss, i, s.(active := false));
    }
  }

  lemma Listed(st: State, ip: Ip)
    requires Coherent(st)
    ensures ip in st.clients <==> Holds(st.sessions, ip)
    ensures ip in st.auth <==> Holds(st.sessions, ip)
    ensures |st.clients| == st.count == |st.auth|
  {
  }

  lemma OccupyCoherent(st: State, ip: Ip, ms: U64, now: int)
    requires Coherent(st) && !Holds(st.sessions, ip)
    ensures Coherent(Occupy(st, ip, ms, now))
    ensures FirstFree(st.sessions) < |st.sessions| ==>
              && Occupy(st, ip, ms, now).sessions == st.sessions[FirstFree(st.sessions) := Session(ip, ms, now, true)]
              && Occupy(st, ip, ms, now).clients == st.clients + [ip]
  {
    hide Lists, Actives;
    var ss, i := st.sessions, FirstFree(st.sessions);
    if i < |ss| {
      var s := Session(ip, ms, now, true);
      Listed(st, ip);
      ActivesFull(ss);
      ListsAdd(st.clients, ss, i, s);
      ListsAdd(st.auth, ss, i, s);
      ActivesUpdate(ss, i, s);
    }
  }

  lemma MakeRoomCoherent(st: State, now: int)
    requires Coherent(st)
    ensures Coherent(MakeRoom(st, now))
    ensures forall ip :: Holds(MakeRoom(st, now).sessions, ip) ==> Holds(st.sessions, ip)
  {
    hide RevokeSlot, Lists, Actives;
    var i := FirstExpired(st.sessions, now);
    if i < |st.sessions| { RevokeSlotCoherent(st, i); }
  }

  lemma CreateCoherent(st: State, ip: Ip, ms: U64, now: int)
    requires Coherent(st)
    ensures Coherent(Create(st, ip, ms, now))
  {
    hide Lists, Actives, Occupy, MakeRoom;
    var ss, i := st.sessions, Find(st.sessions, ip);
    if i < |ss| {
      var s := Extend(ss[i], ms);
      ListsExtend(st.clients, ss, i, s);
      ListsExtend(st.auth, ss, i, s);
      ActivesUpdate(ss, i, s);
    } else {
      MakeRoomCoherent(st, now);
      OccupyCoherent(MakeRoom(st, now), ip, ms, now);
    }
  }

  lemma {:induction false} TickCoherent(st: State, i: nat, now: int)
    requires Coherent(st) && i <= |st.sessions|
    ensures Coherent(TickFrom(st, i, now))
    decreases |st.sessions| - i
  {
    hide RevokeSlot, Lists, Actives;
    if i < |st.sessions| {
      RevokeSlotCoherent(st, i);
      TickCoherent(if st.sessions[i].active && Expired(st.sessions[i], now) then RevokeSlot(st, i) else st, i + 1, now);
    }
  }

  lemma {:induction false} RevokeAllCoherent(st: State, i: nat)
    requires Coherent(st) && i <= |st.sessions|
    ensures Coherent(RevokeFrom(st, i))
    decreases |st.sessions| - i
  {
    hide RevokeSlot, Lists, Actives;
    if i < |st.sessions| {
      RevokeSlotCoherent(st, i);
      RevokeAllCoherent(RevokeSlot(st, i), i + 1);
    }
  }

  // ----- what the steps do to the slots

  /** What one event may do to one slot: ended, extended by its own client, taken by the payer, or nothing. */
  predicate SlotStep(s: Session, t: Session, e: Event, held: bool) {
    t.active ==>
      if e.Pay? && e.ip == t.ip then
        if held then s.active && t == Extend(s, e.ms) else t == Session(e.ip, e.ms, e.now, true)
      else s == t
  }

  /** What a payment does to the slots: none is taken away from a client with time left. */
  ghost predicate PaymentSlots(ss: seq<Session>, tt: seq<Session>, e: Event)
    requires e.Pay?
  {
    && |tt| == |ss|
    && (forall j :: 0 <= j < |ss| ==> SlotStep(ss[j], tt[j], e, Holds(ss, e.ip)))
    && (forall j :: 0 <= j < |ss| && !Expired(ss[j], e.now) ==> tt[j].active && tt[j].ip == ss[j].ip)
    && (Holds(tt, e.ip) <==> Holds(ss, e.ip) || exists j :: 0 <= j < |ss| && Expired(ss[j], e.now))
  }

  lemma CreateSlots(st: State, e: Event)
    requires Coherent(st) && e.Pay?
    ensures PaymentSlots(st.sessions, Step(st, e).sessions, e)
  {
    hide PaymentSlots, Coherent, MakeRoom, Occupy;
    if Find(st.sessions, e.ip) < |st.sessions| { ExtendSlots(st, e); } else { OccupySlots(st, e); }
  }

  lemma ExtendSlots(st: State, e: Event)
    requires Coherent(st) && e.Pay? && Find(st.sessions, e.ip) < |st.sessions|
    ensures PaymentSlots(st.sessions, Step(st, e).sessions, e)
  {
    hide Lists, Actives, MakeRoom, Occupy, Expired;
    var ss, st', ip := st.sessions, Step(st, e), e.ip;
    var i := Find(ss, ip);
    forall j | 0 <= j < |ss| && j != i && ss[j].active ensures ss[j].ip != ip {
      assert ss[if i < j then i else j].ip != ss[if i < j then j else i].ip;
    }
    InactiveExpired(ss, e.now);
    assert st'.sessions[i].active && st'.sessions[i].ip == ip;
  }

  lemma InactiveExpired(ss: seq<Session>, now: int)
    ensures forall j :: 0 <= j < |ss| && !ss[j].active ==> Expired(ss[j], now)
  {
  }

  /** Where room is made, it is an expired session that goes; afterwards a slot is free exactly if one was expired. */
  lemma RoomSlots(st: State, now: int)
    requires Coherent(st)
    ensures var ss, mid := st.sessions, MakeRoom(st, now).sessions;
            && |mid| == |ss| && Coherent(MakeRoom(st, now))
            && (forall j :: 0 <= j < |ss| ==> mid[j] == ss[j] || (Expired(ss[j], now) && !mid[j].active))
            && (FirstFree(mid) < |ss| <==> exists j :: 0 <= j < |ss| && Expired(ss[j], now))
  {
    hide Lists, RevokeSlot, Actives;
    var ss, f := st.sessions, FirstExpired(st.sessions, now);
    MakeRoomCoherent(st, now);
    ActivesFull(ss);
    InactiveExpired(ss, now);
    if f < |ss| { RevokeSlotCoherent(st, f); }
  }

  lemma OccupySlots(st: State, e: Event)
    requires Coherent(st) && e.Pay? && Find(st.sessions, e.ip) == |st.sessions|
    ensures PaymentSlots(st.sessions, Step(st, e).sessions, e)
  {
    hide Coherent, MakeRoom, Occupy;
    var ss, ip := st.sessions, e.ip;
    var mid := MakeRoom(st, e.now);
    RoomSlots(st, e.now);
    InactiveExpired(ss, e.now);
    assert !Holds(mid.sessions, ip);
    OccupyCoherent(mid, ip, e.ms, e.now);
    var n := FirstFree(mid.sessions);
    hide Expired;
    if n < |ss| {
      var tt := mid.sessions[n := Session(ip, e.ms, e.now, true)];
      assert tt[n].active && tt[n].ip == ip;
      assert Expired(ss[n], e.now);
    } else {
      OccupyNothing(mid, ip, e.ms, e.now);
    }
  }

  lemma OccupyNothing(st: State, ip: Ip, ms: U64, now: int)
    requires FirstFree(st.sessions) == |st.sessions|
    ensures Occupy(st, ip, ms, now) == st
  {
  }

  lemma {:induction false} TickSlots(st: State, i: nat, now: int)
    requires Coherent(st) && i <= |st.sessions|
    ensures |TickFrom(st, i, now).sessions| == |st.sessions|
    ensures forall j :: 0 <= j < |st.sessions| ==>
              TickFrom(st, i, now).sessions[j] ==
              if i <= j && Expired(st.sessions[j], now) then st.sessions[j].(active := false) else st.sessions[j]
    decreases |st.sessions| - i
  {
    hide RevokeSlot, Coherent;
    if i < |st.sessions| {
      RevokeSlotCoherent(st, i);
      TickSlots(if st.sessions[i].active && Expired(st.sessions[i], now) then RevokeSlot(st, i) else st, i + 1, now);
    }
  }

  lemma {:induction false} RevokeAllSlots(st: State, i: nat)
    requires Coherent(st) && i <= |st.sessions|
    ensures |RevokeFrom(st, i).sessions| == |st.sessions|
    ensures forall j :: 0 <= j < |st.sessions| ==>
              RevokeFrom(st, i).sessions[j] ==
              if i <= j then st.sessions[j].(active := false) else st.sessions[j]
    decreases |st.sessions| - i
  {
    hide RevokeSlot, Coherent;
    if i < |st.sessions| {
      RevokeSlotCoherent(st, i);
      RevokeAllSlots(RevokeSlot(st, i), i + 1);
    }
  }

  lemma StepSlots(st: State, e: Event)
    requires Coherent(st)
    ensures Coherent(Step(st, e)) && |Step(st, e).sessions| == |st.sessions|
    ensures forall j :: 0 <= j < |st.sessions| ==>
              SlotStep(st.sessions[j], Step(st, e).sessions[j], e, e.Pay? && Holds(st.sessions, e.ip))
  {
    hide Coherent, Create, TickFrom, RevokeFrom, RevokeSlot;
    match e
    case Pay(ip, ms, now) => CreateCoherent(st, ip, ms, now); CreateSlots(st, e);
    case Tick(now) => TickCoherent(st, 0, now); TickSlots(st, 0, now);
    case RevokeOne(slot) => if slot < |st.sessions| { RevokeSlotCoherent(st, slot); }
    case RevokeAll => RevokeAllCoherent(st, 0); RevokeAllSlots(st, 0);
  }

  // ----- the ledger

  lemma SlotAccounts(s: Session, t: Session, e: Event, held: bool, before: seq<Payment>)
    requires SlotStep(s, t, e, held) && t.active
    requires (e.Pay? && e.ip == t.ip) ==> if held then Accounts(s, before) else before == []
    requires !(e.Pay? && e.ip == t.ip) ==> Accounts(s, before)
    ensures Accounts(t, before + Paid(e, t.ip))
  {
    var after := before + Paid(e, t.ip);
    if e.Pay? && e.ip == t.ip {
      assert after[..|after| - 1] == before;
      if held {
        assert TotalMs(after) == TotalMs(before) + e.ms;
      } else {
        assert TotalMs(after) == e.ms;
      }
    } else {
      assert after == before;
    }
  }

  lemma BalancedStep(w: World, e: Event)
    requires Balanced(w)
    ensures Balanced(Next(w, e))
  {
    hide Step, Lists, OneEach, Accounts, SlotStep;
    var st, st', ss, ss' := w.st, Step(w.st, e), w.st.sessions, Step(w.st, e).sessions;
    var w' := Next(w, e);
    StepSlots(st, e);
    forall i | 0 <= i < |ss'| ensures Booked(ss'[i], w'.book) {
      if ss'[i].active {
        var ip := ss'[i].ip;
        assert Holds(ss', ip);
        Listed(st', ip);
        Listed(st, ip);
        SlotBalanced(w, e, i, ss'[i]);
      }
    }
  }

  lemma SlotBalanced(w: World, e: Event, i: nat, t: Session)
    requires Balanced(w) && i < |w.st.sessions| && t.active
    requires SlotStep(w.st.sessions[i], t, e, e.Pay? && Holds(w.st.sessions, e.ip))
    ensures Accounts(t, (if t.ip in w.book then w.book[t.ip] else []) + Paid(e, t.ip))
  {
    hide Lists, OneEach, Accounts, Holds;
    assert Booked(w.st.sessions[i], w.book);
    Listed(w.st, t.ip);
    SlotAccounts(w.st.sessions[i], t, e, e.Pay? && Holds(w.st.sessions, e.ip), if t.ip in w.book then w.book[t.ip] else []);
  }

  /** In every reachable state the three tables agree and the ledger accounts for every session. */
  lemma {:induction false} EveryRunBalanced(es: seq<Event>)
    ensures Balanced(Run(es))
  {
    hide Next;
    if es == [] {
      InitialCoherent();
    } else {
      EveryRunBalanced(es[..|es| - 1]);
      BalancedStep(Run(es[..|es| - 1]), es[|es| - 1]);
    }
  }

  lemma {:induction false} NoneActive(ss: seq<Session>)
    requires forall j :: 0 <= j < |ss| ==> !ss[j].active
    ensures Actives(ss) == 0
  {
    if ss != [] { NoneActive(ss[1..]); }
  }

  lemma InitialCoherent()
    ensures Coherent(Initial())
  {
    NoneActive(Initial().sessions);
  }

  // ----- what clients can rely on

  /** After any run: whom the firewall lets through is whom DNS answers and who has a session, once each. */
  lemma TablesAgree(es: seq<Event>, ip: Ip)
    ensures var st := Run(es).st;
            && (ip in st.clients <==> ip in st.auth)
            && (ip in st.clients <==> Holds(st.sessions, ip))
            && Distinct(st.clients) && Distinct(st.auth) && OneEach(st.sessions)
            && |st.clients| == |st.auth| == st.count == Actives(st.sessions) <= 10
  {
    hide Run;
    EveryRunBalanced(es);
    ActivesFull(Run(es).st.sessions);
  }

  /** After any run: an allowed client's session began with its first payment and lasts for all of them. */
  lemma SessionIsLedger(es: seq<Event>, ip: Ip)
    ensures var w := Run(es);
            ip in w.st.clients ==>
              var i := Find(w.st.sessions, ip);
              ip in w.book && i < |w.st.sessions| && Accounts(w.st.sessions[i], w.book[ip])
  {
    hide Run, Accounts;
    EveryRunBalanced(es);
    var st := Run(es).st;
    Listed(st, ip);
    var i := Find(st.sessions, ip);
    if ip in st.clients { assert Booked(st.sessions[i], Run(es).book); }
  }

  /** A payment never ends a session that has time left. */
  lemma NeverEvicted(es: seq<Event>, payer: Ip, ms: U64, now: int, ip: Ip)
    requires var ss := Run(es).st.sessions; Find(ss, ip) < |ss| && !Expired(ss[Find(ss, ip)], now)
    ensures ip in Run(es + [Pay(payer, ms, now)]).st.clients
  {
    var st, e := Run(es).st, Pay(payer, ms, now);
    LastStep(es, e);
    hide Run, Coherent;
    EveryRunBalanced(es);
    StepSlots(st, e);
    CreateSlots(st, e);
    assert Holds(Step(st, e).sessions, ip);
    Listed(Step(st, e), ip);
  }

  lemma LastStep(es: seq<Event>, e: Event)
    ensures Run(es + [e]) == Next(Run(es), e)
  {
    assert (es + [e])[..|es|] == es;
  }

  /** A payment is refused exactly when the client has no session and all ten belong to others with time left. */
  lemma RefusedIff(es: seq<Event>, payer: Ip, ms: U64, now: int)
    ensures |Run(es).st.sessions| == 10
    ensures var st := Run(es).st;
            payer !in Run(es + [Pay(payer, ms, now)]).st.clients <==>
              payer !in st.clients && forall j :: 0 <= j < 10 ==> !Expired(st.sessions[j], now)
  {
    var st, e := Run(es).st, Pay(payer, ms, now);
    LastStep(es, e);
    hide Run, Coherent, Step;
    EveryRunBalanced(es);
    assert |st.sessions| == MAX_CLIENTS by { hide *; TenSlots(st); }
    StepSlots(st, e);
    CreateSlots(st, e);
    Listed(Step(st, e), payer);
    Listed(st, payer);
  }

  lemma TenSlots(st: State)
    requires Coherent(st)
    ensures |st.sessions| == 10
  {
  }

  /** After a tick: exactly the clients with time left on their payments are still allowed. */
  lemma TickLeavesPaidUp(es: seq<Event>, now: int, ip: Ip)
    ensures var w := Run(es);
            ip in Run(es + [Tick(now)]).st.clients <==>
              ip in w.st.clients && ip in w.book && w.book[ip] != [] &&
              now - w.book[ip][0].at < AsInt64(TotalMs(w.book[ip]) % TWO64)
  {
    var w, e := Run(es), Tick(now);
    var ss, ss' := w.st.sessions, Step(w.st, e).sessions;
    LastStep(es, e);
    EveryRunBalanced(es);
    StepSlots(w.st, e);
    TickSlots(w.st, 0, now);
    Listed(Step(w.st, e), ip);
    Listed(w.st, ip);
    SessionIsLedger(es, ip);
    hide Run, Coherent, Step, TotalMs, AsInt64;
    if Holds(ss', ip) {
      var i :| 0 <= i < |ss'| && ss'[i].active && ss'[i].ip == ip;
      assert ss[i] == ss'[i];
      TickSlot(w, i, now);
    }
    var f := Find(ss, ip);
    if f < |ss| { TickSlot(w, f, now); }
  }

  /** Expiry of a slot, told from the ledger. */
  lemma TickSlot(w: World, i: nat, now: int)
    requires Balanced(w) && i < |w.st.sessions| && w.st.sessions[i].active
    ensures var ip := w.st.sessions[i].ip;
            && ip in w.book && w.book[ip] != []
            && (Expired(w.st.sessions[i], now) <==> now - w.book[ip][0].at >= AsInt64(TotalMs(w.book[ip]) % TWO64))
  {
    hide Coherent, TotalMs, AsInt64;
    assert Booked(w.st.sessions[i], w.book);
  }
}
