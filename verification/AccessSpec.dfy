/** Who may use the network: the session slots, the firewall's client array and the DNS
    authentication list as values, the steps that change them, and what every run keeps. */
module AccessSpec {
  import opened Widths
  type Ip = nat

  /** The sizes of the three tables. */
  const MAX_CLIENTS := 10

  /** uint64_t */
  type U64 = n: nat | n < TWO64

  datatype Session = Session(ip: Ip, allotmentMs: U64, startMs: int, active: bool)

  datatype State = State(sessions: seq<Session>, count: int, clients: seq<Ip>, auth: seq<Ip>)

  // ----- the DNS list and the firewall array

  /** The first place of ip, or the length. */
  function IndexOf(s: seq<Ip>, ip: Ip): (i: nat)
    ensures i <= |s| && (i < |s| ==> s[i] == ip) && forall j :: 0 <= j < i ==> s[j] != ip
    ensures ip in s <==> i < |s|
  {
    if s == [] then 0 else if s[0] == ip then 0 else 1 + IndexOf(s[1..], ip)
  }

  /** The last element takes the place of the removed one. */
  function SwapRemove(s: seq<Ip>, ip: Ip): seq<Ip> {
    var i, n := IndexOf(s, ip), |s| - 1;
    if i == |s| then s else s[i := s[n]][..n]
  }

  /** tollgate_core_dns_set_authenticated */
  function SetAuthenticated(auth: seq<Ip>, ip: Ip, on: bool): seq<Ip> {
    if !on then SwapRemove(auth, ip)
    else if ip in auth || |auth| >= MAX_CLIENTS then auth
    else auth + [ip]
  }

  /** tollgate_core_fw_grant */
  function Grant(st: State, ip: Ip): State {
    if ip in st.clients || |st.clients| >= MAX_CLIENTS then st
    else st.(clients := st.clients + [ip], auth := SetAuthenticated(st.auth, ip, true))
  }

  /** tollgate_core_fw_revoke */
  function Revoke(st: State, ip: Ip): State {
    if ip !in st.clients then st
    else st.(clients := SwapRemove(st.clients, ip), auth := SetAuthenticated(st.auth, ip, false))
  }

  // ----- sessions

  function AsInt64(n: nat): int { if n < TWO64 / 2 then n else n - TWO64 }

  /** The allotment of the session is used up. */
  predicate Expired(s: Session, now: int) {
    !s.active || now - s.startMs >= AsInt64(s.allotmentMs)
  }

  /** The slot of the client's session, or the number of slots. */
  function Find(ss: seq<Session>, ip: Ip): (i: nat)
    ensures i <= |ss| && (i < |ss| ==> ss[i].active && ss[i].ip == ip)
    ensures forall j :: 0 <= j < i ==> !(ss[j].active && ss[j].ip == ip)
  {
    if ss == [] then 0 else if ss[0].active && ss[0].ip == ip then 0 else 1 + Find(ss[1..], ip)
  }

  function FirstFree(ss: seq<Session>): (i: nat)
    ensures i <= |ss| && (i < |ss| ==> !ss[i].active) && forall j :: 0 <= j < i ==> ss[j].active
  {
    if ss == [] then 0 else if !ss[0].active then 0 else 1 + FirstFree(ss[1..])
  }

  function FirstExpired(ss: seq<Session>, now: int): (i: nat)
    ensures i <= |ss| && (i < |ss| ==> Expired(ss[i], now)) && forall j :: 0 <= j < i ==> !Expired(ss[j], now)
  {
    if ss == [] then 0 else if Expired(ss[0], now) then 0 else 1 + FirstExpired(ss[1..], now)
  }

  /** tollgate_core_session_revoke */
  function RevokeSlot(st: State, i: nat): State
    requires i < |st.sessions|
  {
    var s := st.sessions[i];
    if !s.active then st
    else Revoke(st, s.ip).(sessions := st.sessions[i := s.(active := false)], count := st.count - 1)
  }

  function Extend(s: Session, ms: U64): Session { s.(allotmentMs := (s.allotmentMs + ms) % TWO64) }

  /** What create does about a full table: the first expired session makes room. */
  function MakeRoom(st: State, now: int): State {
    var i := FirstExpired(st.sessions, now);
    if st.count >= MAX_CLIENTS && i < |st.sessions| then RevokeSlot(st, i) else st
  }

  /** The new session takes the first free slot, if there is one. */
  function Occupy(st: State, ip: Ip, ms: U64, now: int): State {
    var i := FirstFree(st.sessions);
    if i == |st.sessions| then st
    else Grant(st.(sessions := st.sessions[i := Session(ip, ms, now, true)], count := st.count + 1), ip)
  }

  /** tollgate_core_session_create */
  function Create(st: State, ip: Ip, ms: U64, now: int): State {
    var i := Find(st.sessions, ip);
    if i < |st.sessions| then st.(sessions := st.sessions[i := Extend(st.sessions[i], ms)])
    else Occupy(MakeRoom(st, now), ip, ms, now)
  }

  /** Does create return a session? */
  predicate Created(st: State, ip: Ip, now: int) {
    Find(st.sessions, ip) < |st.sessions| || FirstFree(MakeRoom(st, now).sessions) < |st.sessions|
  }

  /** check_expiry, from slot i on. */
  function TickFrom(st: State, i: nat, now: int): State
    requires i <= |st.sessions|
    decreases |st.sessions| - i
  {
    if i == |st.sessions| then st
    else TickFrom(if st.sessions[i].active && Expired(st.sessions[i], now) then RevokeSlot(st, i) else st, i + 1, now)
  }

  /** tollgate_core_session_revoke_all, from slot i on. */
  function RevokeFrom(st: State, i: nat): State
    requires i <= |st.sessions|
    decreases |st.sessions| - i
  {
    if i == |st.sessions| then st else RevokeFrom(RevokeSlot(st, i), i + 1)
  }

  function Initial(): State {
    State(seq(MAX_CLIENTS, _ => Session(0, 0, 0, false)), 0, [], [])
  }

  // ----- runs

  datatype Event =
    | Pay(ip: Ip, ms: U64, now: int)
    | Tick(now: int)
    | RevokeOne(slot: nat)
    | RevokeAll

  function Step(st: State, e: Event): State {
    match e
    case Pay(ip, ms, now) => Create(st, ip, ms, now)
    case Tick(now) => TickFrom(st, 0, now)
    case RevokeOne(slot) => if slot < |st.sessions| then RevokeSlot(st, slot) else st
    case RevokeAll => RevokeFrom(st, 0)
  }

  datatype Payment = Payment(ms: U64, at: int)

  /** The payments of every client, since the firewall began to let it through. */
  type Book = map<Ip, seq<Payment>>

  function Paid(e: Event, ip: Ip): seq<Payment> {
    if e.Pay? && e.ip == ip then [Payment(e.ms, e.now)] else []
  }

  /** The book is kept from outside: it sees only whom the firewall allows, and who pays. */
  function Entered(book: Book, clients: seq<Ip>, e: Event): Book {
    map ip | ip in clients :: (if ip in book then book[ip] else []) + Paid(e, ip)
  }

  datatype World = World(st: State, book: Book)

  function Next(w: World, e: Event): World {
    var st := Step(w.st, e);
    World(st, Entered(w.book, st.clients, e))
  }

  /** The world after the events, the first of them first. */
  function Run(es: seq<Event>): World {
    if es == [] then World(Initial(), map[]) else Next(Run(es[..|es| - 1]), es[|es| - 1])
  }

  function TotalMs(ps: seq<Payment>): nat {
    if ps == [] then 0 else TotalMs(ps[..|ps| - 1]) + ps[|ps| - 1].ms
  }

  // ----- the three tables agree

  function Actives(ss: seq<Session>): nat {
    if ss == [] then 0 else (if ss[0].active then 1 else 0) + Actives(ss[1..])
  }

  predicate Holds(ss: seq<Session>, ip: Ip) { exists i :: 0 <= i < |ss| && ss[i].active && ss[i].ip == ip }

  predicate Distinct(s: seq<Ip>) { forall i, j :: 0 <= i < j < |s| ==> s[i] != s[j] }

  predicate OneEach(ss: seq<Session>) {
    forall i, j :: 0 <= i < j < |ss| && ss[i].active && ss[j].active ==> ss[i].ip != ss[j].ip
  }

  ghost predicate Lists(s: seq<Ip>, ss: seq<Session>) {
    && Distinct(s)
    && |s| == Actives(ss)
    && forall ip :: ip in s <==> Holds(ss, ip)
  }

  /** Sessions, firewall and DNS list describe the same clients, each of them once. */
  ghost predicate Coherent(st: State) {
    && |st.sessions| == MAX_CLIENTS
    && st.count == Actives(st.sessions)
    && OneEach(st.sessions)
    && Lists(st.clients, st.sessions)
    && Lists(st.auth, st.sessions)
  }

  /** A session stands for its client's payments: it began with the first and lasts for their sum. */
  predicate Accounts(s: Session, ps: seq<Payment>) {
    && ps != []
    && s.startMs == ps[0].at
    && s.allotmentMs == TotalMs(ps) % TWO64
  }

  predicate Booked(s: Session, book: Book) {
    s.active ==> s.ip in book && Accounts(s, book[s.ip])
  }

  ghost predicate Balanced(w: World) {
    && Coherent(w.st)
    && w.book.Keys == (set ip | ip in w.st.clients)
    && forall i :: 0 <= i < |w.st.sessions| ==> Booked(w.st.sessions[i], w.book)
  }
}
