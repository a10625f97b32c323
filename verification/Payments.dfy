/** From the fields of a token to a session: the checks a payment passes, in their order. */
module Payments {
  import opened Options
  import opened AccessSpec
  import opened AccessProofs
  import opened PaidTime
  import opened Allotments
  import opened AccessTables
  import opened Widths

  const MAX_PROOFS := 10

  /** The parsed token: its mint and the amount field of each proof, if there is a numeric one. */
  datatype Token = Token(mint: string, proofs: seq<Option<U64>>)

  /** What the device and the mint say about one payment. */
  datatype Offer = Offer(
    acceptedMint: string,       // configured, "" when it is not
    token: Option<Token>,       // None: not a token
    spent: Option<seq<bool>>,   // the mint's answer, one entry a proof; None: no answer
    wallet: Option<bool>,       // does the wallet redeem the token; None: no wallet
    price: U64,
    step: U64)

  predicate AllAmounts(proofs: seq<Option<U64>>) { forall i :: 0 <= i < |proofs| ==> proofs[i].Some? }

  function Amounts(proofs: seq<Option<U64>>): (r: seq<U64>)
    requires AllAmounts(proofs)
    ensures |r| == |proofs|
  {
    seq(|proofs|, i requires 0 <= i < |proofs| => proofs[i].value)
  }

  /** What a token is worth, if it is a good one. */
  function Worth(token: Option<Token>): Option<nat> {
    if token.Some? && 0 < |token.value.proofs| <= MAX_PROOFS && AllAmounts(token.value.proofs)
    then Some(Total(Amounts(token.value.proofs)) % TWO64)
    else None
  }

  /** All that is asked before the wallet is. */
  predicate Checked(o: Offer) {
    && o.acceptedMint != ""
    && Worth(o.token).Some?
    && o.token.value.mint == o.acceptedMint
    && o.spent.Some?
    && true !in o.spent.value
  }

  /** The time the offer buys. */
  function Buys(o: Offer): U64 {
    if Checked(o) && o.wallet != Some(false) then Allotment(Worth(o.token).value, o.price, o.step) else 0
  }

  /** The proofs of a token summed up in 64 bits; none of them may lack an amount. */
  method ParseProofs(proofs: seq<Option<U64>>) returns (total: Option<U64>)
    ensures total == if |proofs| <= MAX_PROOFS && AllAmounts(proofs) then Some(Total(Amounts(proofs)) % TWO64) else None
  {
    if |proofs| > MAX_PROOFS { return None; }
    NoAmounts();
    assert proofs[..0] == [] && proofs[..|proofs|] == proofs;
    hide Total, Amounts;
    var sum: U64 := 0;
    for i := 0 to |proofs|
      invariant AllAmounts(proofs[..i])
      invariant sum == Total(Amounts(proofs[..i])) % TWO64
    {
      if proofs[i].None? { return None; }
      MoreAmounts(proofs, i);
      sum := (sum + proofs[i].value) % TWO64;
    }
    return Some(sum);
  }

  lemma NoAmounts()
    ensures Total(Amounts([])) == 0
  {
  }

  lemma MoreAmounts(proofs: seq<Option<U64>>, i: nat)
    requires i < |proofs| && AllAmounts(proofs[..i]) && proofs[i].Some?
    ensures AllAmounts(proofs[..i + 1])
    ensures Total(Amounts(proofs[..i + 1])) == Total(Amounts(proofs[..i])) + proofs[i].value
  {
    assert proofs[..i + 1] == proofs[..i] + [proofs[i]];
    assert Amounts(proofs[..i + 1])[..i] == Amounts(proofs[..i]);
  }

  /** Is one of the proofs spent already? */
  method AnySpent(states: seq<bool>) returns (spent: bool)
    ensures spent <==> true in states
  {
    for i := 0 to |states|
      invariant true !in states[..i]
    {
      if states[i] { return true; }
      assert states[..i + 1] == states[..i] + [states[i]];
    }
    assert states[..|states|] == states;
    return false;
  }

  /** tollgate_core_process_payment; redeemed tells whether the wallet has taken the token. */
  method ProcessPayment(table: SessionTable, ip: Ip, o: Offer, now: int) returns (granted: bool, redeemed: bool)
    requires table.Valid()
    modifies table, table.sessions, table.firewall, table.firewall.clients, table.firewall.dns, table.firewall.dns.ips
    ensures table.Valid()
    ensures redeemed <==> Checked(o) && o.wallet == Some(true)
    ensures granted <==> Buys(o) > 0 && Created(old(table.State()), ip, now)
    ensures table.State() == if Buys(o) > 0 then Create(old(table.State()), ip, Buys(o), now) else old(table.State())
    ensures redeemed <==> MayBeTaken(o) && o.wallet == Some(true)
    ensures granted <==>
              MayBeTaken(o) && o.wallet != Some(false) && TimePaid(o) > 0 && Created(old(table.State()), ip, now)
    ensures table.State() ==
              if MayBeTaken(o) && o.wallet != Some(false) && TimePaid(o) > 0
              then Create(old(table.State()), ip, TimePaid(o), now) else old(table.State())
  {
    FieldsChecked(o);
    hide Create, Created, Total, Product, Quotient, MayBeTaken, TimePaid, SumModulo;
    redeemed := false;
    if o.acceptedMint == "" { return false, redeemed; }
    if o.token.None? { return false, redeemed; }
    var amount := ParseProofs(o.token.value.proofs);
    if amount.None? || |o.token.value.proofs| == 0 { return false, redeemed; }
    if o.token.value.mint == "" || o.token.value.mint != o.acceptedMint { return false, redeemed; }
    if o.spent.None? { return false, redeemed; }
    var spent := AnySpent(o.spent.value);
    if spent { return false, redeemed; }
    if o.wallet.Some? {
      if !o.wallet.value { return false, redeemed; }
      redeemed := true;
    }
    var allotment := Allotment(amount.value, o.price, o.step);
    if allotment == 0 { return false, redeemed; }
    granted := table.Create(ip, allotment, now);
  }

  // ----- the checks, field by field

  /** The sum of the amounts, in 64 bits. */
  function SumModulo(proofs: seq<Option<U64>>): U64 {
    if proofs == [] then 0
    else
      var last := proofs[|proofs| - 1];
      (SumModulo(proofs[..|proofs| - 1]) + if last.Some? then last.value else 0) % TWO64
  }

  lemma {:induction false} SumIsTotal(proofs: seq<Option<U64>>)
    requires AllAmounts(proofs)
    ensures SumModulo(proofs) == Total(Amounts(proofs)) % TWO64
  {
    if proofs != [] {
      var init := proofs[..|proofs| - 1];
      assert forall i :: 0 <= i < |init| ==> init[i] == proofs[i];
      SumIsTotal(init);
      assert Amounts(proofs)[..|init|] == Amounts(init);
      SumStep(Total(Amounts(init)), proofs[|proofs| - 1].value);
    }
  }

  lemma SumStep(a: nat, b: nat)
    ensures (a % TWO64 + b) % TWO64 == (a + b) % TWO64
  {
  }

  /** The token may be taken: a mint is configured and it is that mint's, it has one to ten proofs that all say what they
      are worth, and the mint has answered that none of them is spent. */
  ghost predicate MayBeTaken(o: Offer) {
    && o.acceptedMint != "" && o.token.Some? && o.token.value.mint == o.acceptedMint
    && 1 <= |o.token.value.proofs| <= 10
    && (forall i :: 0 <= i < |o.token.value.proofs| ==> o.token.value.proofs[i].Some?)
    && o.spent.Some? && forall i :: 0 <= i < |o.spent.value| ==> !o.spent.value[i]
  }

  /** The whole steps that the sum of the amounts pays for, in 64-bit milliseconds. */
  function TimePaid(o: Offer): U64 {
    if o.token.None? || o.price == 0 then 0 else SumModulo(o.token.value.proofs) / o.price * o.step % TWO64
  }

  lemma FieldsChecked(o: Offer)
    ensures Checked(o) <==> MayBeTaken(o)
    ensures Buys(o) == if MayBeTaken(o) && o.wallet != Some(false) then TimePaid(o) else 0
  {
    hide Total, SumModulo;
    if Checked(o) || MayBeTaken(o) {
      SumIsTotal(o.token.value.proofs);
    }
  }

  /** A token of which the mint says that a proof is spent changes nothing, is not taken and gives no access. */
  lemma SpentIsRefused(st: State, ip: Ip, o: Offer, now: int, i: nat)
    requires o.spent.Some? && i < |o.spent.value| && o.spent.value[i]
    ensures Offered(st, ip, o, now) == st && !Redeemed(o) && !Granted(st, ip, o, now)
  {
    FieldsChecked(o);
    hide TimePaid, Create, Created, Checked, Buys;
  }

  /** The state after an offer. */
  function Offered(st: State, ip: Ip, o: Offer, now: int): State {
    if Buys(o) > 0 then Create(st, ip, Buys(o), now) else st
  }

  predicate Granted(st: State, ip: Ip, o: Offer, now: int) { Buys(o) > 0 && Created(st, ip, now) }

  predicate Redeemed(o: Offer) { Checked(o) && o.wallet == Some(true) }

  lemma CreatedIff(st: State, ip: Ip, ms: U64, now: int)
    requires Coherent(st)
    ensures Created(st, ip, now) <==> ip in Create(st, ip, ms, now).clients
    ensures !Created(st, ip, now) ==> Create(st, ip, ms, now) == MakeRoom(st, now)
  {
    hide Coherent;
    var i := Find(st.sessions, ip);
    FindHolds(st.sessions, ip);
    Listed(st, ip);
    if i == |st.sessions| {
      var mid := MakeRoom(st, now);
      hide MakeRoom;
      MakeRoomCoherent(st, now);
      Listed(mid, ip);
      OccupyCoherent(mid, ip, ms, now);
      if FirstFree(mid.sessions) == |mid.sessions| { OccupyNothing(mid, ip, ms, now); }
    }
  }

  lemma FindHolds(ss: seq<Session>, ip: Ip)
    ensures Find(ss, ip) < |ss| <==> Holds(ss, ip)
  {
  }

  /** After any run, the call refuses a payer whose token the wallet has taken exactly when the token is worth less than a
      step (or the price is zero, or the time wraps to zero), or ten other clients have time left. */
  lemma RefusedOfferIff(es: seq<Event>, ip: Ip, o: Offer, now: int)
    requires Redeemed(o)
    ensures |Run(es).st.sessions| == 10
    ensures !Granted(Run(es).st, ip, o, now) <==>
              || o.price == 0
              || Product(Quotient(Worth(o.token).value, o.price), o.step) % TWO64 == 0
              || (ip !in Run(es).st.clients && forall j :: 0 <= j < 10 ==> !Expired(Run(es).st.sessions[j], now))
  {
    hide Run, Coherent, Create, Created, Expired, Product, Quotient;
    var st := Run(es).st;
    EveryRunBalanced(es);
    CreatedIff(st, ip, 0, now);
    RefusedIff(es, ip, 0, now);
    LastPayment(es, ip, 0, now);
  }

  /** The event of an offer that buys time. */
  function Taken(ip: Ip, o: Offer, now: int): seq<Event> { if Buys(o) > 0 then [Pay(ip, Buys(o), now)] else [] }

  /** The state after an offer is that of the run with its event. */
  lemma OfferedIsTaken(es: seq<Event>, ip: Ip, o: Offer, now: int)
    ensures Run(es + Taken(ip, o, now)).st == Offered(Run(es).st, ip, o, now)
  {
    hide Run, Create, Buys;
    if Buys(o) > 0 { LastPayment(es, ip, Buys(o), now); } else { assert es + [] == es; }
  }

  /** After any run, a token the wallet has taken buys nothing, that is it changes what no tick from then on leaves to
      the payer, exactly when the call refuses it or the time paid in all was over before, for want of a tick since. */
  lemma RedeemedInVainIff(es: seq<Event>, ip: Ip, o: Offer, now: int)
    requires Redeemed(o)
    ensures (forall t :: now <= t ==> (AllowedAt(es + Taken(ip, o, now), ip, t) <==> AllowedAt(es, ip, t))) <==>
              || o.price == 0
              || Product(Quotient(Worth(o.token).value, o.price), o.step) % TWO64 == 0
              || InVain(Run(es), ip, Buys(o), now)
  {
    hide Run, AllowedAt, InVain, Product, Quotient;
    if Buys(o) > 0 { BuysNothingIff(es, ip, Buys(o), now); } else { assert es + [] == es; }
  }

  lemma LastPayment(es: seq<Event>, ip: Ip, ms: U64, now: int)
    ensures Run(es + [Pay(ip, ms, now)]).st == Create(Run(es).st, ip, ms, now)
  {
    LastStep(es, Pay(ip, ms, now));
  }

  /** No offer, taken or refused, costs a client with time left its access. */
  lemma OfferKeepsPaidUp(es: seq<Event>, payer: Ip, o: Offer, now: int, ip: Ip)
    requires var ss := Run(es).st.sessions; Find(ss, ip) < |ss| && !Expired(ss[Find(ss, ip)], now)
    ensures ip in Offered(Run(es).st, payer, o, now).clients
  {
    hide Coherent;
    EveryRunBalanced(es);
    Listed(Run(es).st, ip);
    if Buys(o) > 0 {
      NeverEvicted(es, payer, Buys(o), now, ip);
      LastPayment(es, payer, Buys(o), now);
    }
  }

  /** One proof of 20 at a price of 21, accepted, unspent and taken by the wallet. */
  function TooSmall(mint: string): Offer {
    Offer(mint, Some(Token(mint, [Some(20)])), Some([false]), Some(true), 21, 60_000)
  }

  /** It is redeemed and buys nothing, whoever offers it and whatever the tables hold. */
  lemma TooSmallInVain(mint: string, st: State, ip: Ip, now: int)
    requires mint != ""
    ensures Redeemed(TooSmall(mint)) && !Granted(st, ip, TooSmall(mint), now)
    ensures Offered(st, ip, TooSmall(mint), now) == st
  {
    var proofs := TooSmall(mint).token.value.proofs;
    var amounts := Amounts(proofs);
    assert amounts == [20];
    assert amounts[..0] == [];
    assert Total(amounts) == 20;
    assert Quotient(20, 21) == 0 && Product(0, 60_000) == 0;
  }
}
