/** What a payment is worth to its payer: until when a tick leaves it its access, after any run. */
module PaidTime {
  import opened AccessSpec
  import opened AccessProofs
  import opened Widths

  /** Everyone has time left. */
  predicate Full(ss: seq<Session>, now: int) { forall j :: 0 <= j < |ss| ==> !Expired(ss[j], now) }

  function MaxOf(a: int, b: int): int { if a >= b then a else b }

  /** Is the client allowed after the events and a tick? */
  predicate AllowedAt(es: seq<Event>, ip: Ip, t: int) { ip in Run(es + [Tick(t)]).st.clients }

  /** All that a client has paid since the firewall began to let it through, and when it began. */
  function PaidMs(w: World, ip: Ip): nat { if ip in w.book then TotalMs(w.book[ip]) else 0 }

  function Since(w: World, ip: Ip): int { if ip in w.book && w.book[ip] != [] then w.book[ip][0].at else 0 }

  /** How long so many milliseconds last in 64 bits, compared as signed. */
  function Lasts(total: nat): int { AsInt64(total % TWO64) }

  lemma Unwrapped(total: nat)
    requires total < TWO64
    ensures Lasts(total) == if total < TWO64 / 2 then total else total - TWO64
  {
  }

  /** Adding less than 2^64 moves the value. */
  lemma Moved(total: nat, ms: U64)
    requires ms > 0
    ensures Lasts(total) != Lasts(total + ms)
  {
  }

  // ----- one payment in the book

  lemma TotalSnoc(ps: seq<Payment>, p: Payment)
    ensures TotalMs(ps + [p]) == TotalMs(ps) + p.ms
  {
    assert (ps + [p])[..|ps|] == ps;
  }

  lemma PaymentEntered(es: seq<Event>, ip: Ip, ms: U64, now: int)
    requires ip in Run(es + [Pay(ip, ms, now)]).st.clients
    ensures var w, w' := Run(es), Run(es + [Pay(ip, ms, now)]);
            && ip in w'.book && w'.book[ip] != []
            && PaidMs(w', ip) == (if ip in w.st.clients then PaidMs(w, ip) else 0) + ms
            && Since(w', ip) == if ip in w.st.clients then Since(w, ip) else now
  {
    var w, p := Run(es), Payment(ms, now);
    LastStep(es, Pay(ip, ms, now));
    EveryRunBalanced(es);
    SessionIsLedger(es, ip);
    hide Run, Step, Coherent, Accounts, TotalMs;
    var before := if ip in w.book then w.book[ip] else [];
    TotalSnoc(before, p);
    if ip in w.st.clients {
      BookStarted(es, ip);
    } else {
      assert ip !in w.book;
      NothingPaid();
    }
  }

  lemma NothingPaid()
    ensures TotalMs([]) == 0
  {
  }

  lemma BookStarted(es: seq<Event>, ip: Ip)
    requires ip in Run(es).st.clients
    ensures ip in Run(es).book && Run(es).book[ip] != []
  {
    SessionIsLedger(es, ip);
    hide Run, TotalMs;
  }

  /** A tick asks the book. */
  lemma AllowedIff(es: seq<Event>, ip: Ip, t: int)
    ensures AllowedAt(es, ip, t) <==>
              ip in Run(es).st.clients && t - Since(Run(es), ip) < Lasts(PaidMs(Run(es), ip))
  {
    TickLeavesPaidUp(es, t, ip);
    if ip in Run(es).st.clients { BookStarted(es, ip); }
    hide Run, TotalMs, AsInt64;
  }

  // ----- until when

  /** After a payment and a tick the payer is allowed exactly while its start lies back by less than all it has paid; a
      payer without a session starts now, if there is room. */
  lemma PaidUntil(es: seq<Event>, ip: Ip, ms: U64, now: int, t: int)
    ensures var w := Run(es);
            AllowedAt(es + [Pay(ip, ms, now)], ip, t) <==>
              if ip in w.st.clients then t - Since(w, ip) < Lasts(PaidMs(w, ip) + ms)
              else !Full(w.st.sessions, now) && t - now < Lasts(ms)
  {
    hide *;
    var paid := es + [Pay(ip, ms, now)];
    AllowedIff(paid, ip, t);
    RefusedWhenFull(es, ip, ms, now);
    if ip in Run(paid).st.clients { PaymentEntered(es, ip, ms, now); }
  }

  lemma RefusedWhenFull(es: seq<Event>, ip: Ip, ms: U64, now: int)
    ensures ip !in Run(es + [Pay(ip, ms, now)]).st.clients <==> ip !in Run(es).st.clients && Full(Run(es).st.sessions, now)
  {
    hide Run, Expired;
    RefusedIff(es, ip, ms, now);
  }

  /** The payer gets the time for which it paid, the whole of it, exactly when the old session had not run out before
      the payment, as long as nothing wraps. */
  lemma FullTimeIff(es: seq<Event>, ip: Ip, ms: U64, now: int)
    requires ms > 0 && ip in Run(es).st.clients
    ensures var w := Run(es);
            var whole := forall t :: now <= t < now + ms ==> AllowedAt(es + [Pay(ip, ms, now)], ip, t);
            && (whole <==> now + ms - Since(w, ip) <= Lasts(PaidMs(w, ip) + ms))
            && (PaidMs(w, ip) + ms < TWO64 / 2 ==> (whole <==> now - Since(w, ip) <= PaidMs(w, ip)))
  {
    hide *;
    var w, paid, last := Run(es), es + [Pay(ip, ms, now)], now + ms - 1;
    var until := Since(w, ip) + Lasts(PaidMs(w, ip) + ms);
    forall t ensures AllowedAt(paid, ip, t) <==> t < until {
      PaidUntil(es, ip, ms, now, t);
    }
    if forall t :: now <= t < now + ms ==> AllowedAt(paid, ip, t) {
      assert AllowedAt(paid, ip, last);
    }
    if PaidMs(w, ip) + ms < TWO64 / 2 { Unwrapped(PaidMs(w, ip) + ms); }
  }

  /** A payer without a session gets the whole time exactly when there is room, as long as nothing wraps. */
  lemma NewFullTimeIff(es: seq<Event>, ip: Ip, ms: U64, now: int)
    requires ms > 0 && ip !in Run(es).st.clients
    ensures (forall t :: now <= t < now + ms ==> AllowedAt(es + [Pay(ip, ms, now)], ip, t)) <==>
              !Full(Run(es).st.sessions, now) && ms < TWO64 / 2
  {
    var paid := es + [Pay(ip, ms, now)];
    forall t ensures AllowedAt(paid, ip, t) <==> !Full(Run(es).st.sessions, now) && t - now < Lasts(ms) {
      PaidUntil(es, ip, ms, now, t);
    }
    hide Run, AllowedAt, Full, Lasts;
    Unwrapped(ms);
    if forall t :: now <= t < now + ms ==> AllowedAt(paid, ip, t) {
      assert AllowedAt(paid, ip, now);
    }
  }

  // ----- payments for nothing

  /** The old session has run out by so much that all the paid time is over; or there is no room. */
  predicate InVain(w: World, ip: Ip, ms: U64, now: int) {
    if ip in w.st.clients then
      now - Since(w, ip) >= MaxOf(Lasts(PaidMs(w, ip)), Lasts(PaidMs(w, ip) + ms))
    else Full(w.st.sessions, now) || Lasts(ms) <= 0
  }

  /** A payment changes what no tick from then on leaves to its payer exactly when it is made in vain. */
  lemma BuysNothingIff(es: seq<Event>, ip: Ip, ms: U64, now: int)
    requires ms > 0
    ensures (forall t :: now <= t ==> (AllowedAt(es + [Pay(ip, ms, now)], ip, t) <==> AllowedAt(es, ip, t))) <==>
              InVain(Run(es), ip, ms, now)
  {
    hide *;
    if ip in Run(es).st.clients { NoneForClient(es, ip, ms, now); } else { NoneForNew(es, ip, ms, now); }
  }

  lemma NoneForClient(es: seq<Event>, ip: Ip, ms: U64, now: int)
    requires ms > 0 && ip in Run(es).st.clients
    ensures (forall t :: now <= t ==> (AllowedAt(es + [Pay(ip, ms, now)], ip, t) <==> AllowedAt(es, ip, t))) <==>
              InVain(Run(es), ip, ms, now)
  {
    hide *;
    var w, paid := Run(es), es + [Pay(ip, ms, now)];
    var a, b := Lasts(PaidMs(w, ip)), Lasts(PaidMs(w, ip) + ms);
    forall t
      ensures AllowedAt(paid, ip, t) <==> t - Since(w, ip) < b
      ensures AllowedAt(es, ip, t) <==> t - Since(w, ip) < a
    {
      PaidUntil(es, ip, ms, now, t);
      AllowedIff(es, ip, t);
    }
    Moved(PaidMs(w, ip), ms);
    VainClient(w, ip, ms, now);
    if forall t :: now <= t ==> (AllowedAt(paid, ip, t) <==> AllowedAt(es, ip, t)) {
      var t := Since(w, ip) + (if a >= b then a else b) - 1;
      if now <= t { assert AllowedAt(paid, ip, t) <==> AllowedAt(es, ip, t); }
    }
  }

  lemma VainClient(w: World, ip: Ip, ms: U64, now: int)
    requires ip in w.st.clients
    ensures InVain(w, ip, ms, now) <==>
              now - Since(w, ip) >= Lasts(PaidMs(w, ip)) && now - Since(w, ip) >= Lasts(PaidMs(w, ip) + ms)
  {
    hide Since, PaidMs, Lasts;
  }

  lemma VainNew(w: World, ip: Ip, ms: U64, now: int)
    requires ip !in w.st.clients
    ensures InVain(w, ip, ms, now) <==> Full(w.st.sessions, now) || Lasts(ms) <= 0
  {
    hide Since, PaidMs, Lasts, Full;
  }

  lemma NoneForNew(es: seq<Event>, ip: Ip, ms: U64, now: int)
    requires ms > 0 && ip !in Run(es).st.clients
    ensures (forall t :: now <= t ==> (AllowedAt(es + [Pay(ip, ms, now)], ip, t) <==> AllowedAt(es, ip, t))) <==>
              InVain(Run(es), ip, ms, now)
  {
    hide *;
    var w, paid := Run(es), es + [Pay(ip, ms, now)];
    forall t
      ensures AllowedAt(paid, ip, t) <==> !Full(w.st.sessions, now) && t - now < Lasts(ms)
      ensures !AllowedAt(es, ip, t)
    {
      PaidUntil(es, ip, ms, now, t);
      AllowedIff(es, ip, t);
    }
    VainNew(w, ip, ms, now);
    if forall t :: now <= t ==> (AllowedAt(paid, ip, t) <==> AllowedAt(es, ip, t)) {
      assert AllowedAt(paid, ip, now) <==> AllowedAt(es, ip, now);
    }
  }

  /** Without wrapping: the time paid in all is over, or there is no room. */
  lemma InVainIff(w: World, ip: Ip, ms: U64, now: int)
    requires 0 < ms && PaidMs(w, ip) + ms < TWO64 / 2
    ensures InVain(w, ip, ms, now) <==>
              if ip in w.st.clients then now - Since(w, ip) >= PaidMs(w, ip) + ms else Full(w.st.sessions, now)
  {
    hide PaidMs, Since, Full, Lasts;
    Unwrapped(PaidMs(w, ip) + ms);
    Unwrapped(PaidMs(w, ip));
    Unwrapped(ms);
  }

  /** Ten milliseconds bought at time 0 and ten more at time 100, before a tick has come by: the second payment is
      accepted, and the next tick ends the session. */
  lemma LateInVain(ip: Ip)
    ensures var es := [Pay(ip, 10, 0)];
            && ip in Run(es + [Pay(ip, 10, 100)]).st.clients
            && !AllowedAt(es + [Pay(ip, 10, 100)], ip, 100)
            && InVain(Run(es), ip, 10, 100)
  {
    hide Run, AllowedAt, Since, PaidMs, Lasts, Full, InVain, AsInt64, Expired, TotalMs;
    var es := [Pay(ip, 10, 0)];
    FirstPayment(ip);
    RefusedWhenFull(es, ip, 10, 100);
    PaidUntil(es, ip, 10, 100, 100);
    Unwrapped(20);
    InVainIff(Run(es), ip, 10, 100);
  }

  lemma FirstPayment(ip: Ip)
    ensures var w := Run([Pay(ip, 10, 0)]); ip in w.st.clients && PaidMs(w, ip) == 10 && Since(w, ip) == 0
  {
    hide Run, AllowedAt, Since, PaidMs, Lasts, Full, InVain, AsInt64, Expired, TotalMs;
    assert [] + [Pay(ip, 10, 0)] == [Pay(ip, 10, 0)];
    NobodyAtFirst(ip);
    RoomAtFirst();
    RefusedWhenFull([], ip, 10, 0);
    PaymentEntered([], ip, 10, 0);
  }

  lemma NobodyAtFirst(ip: Ip)
    ensures ip !in Run([]).st.clients
  {
  }

  lemma RoomAtFirst()
    ensures !Full(Run([]).st.sessions, 0)
  {
    assert Expired(Run([]).st.sessions[0], 0);
  }
}
