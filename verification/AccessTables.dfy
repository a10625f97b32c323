/** The three tables as the device keeps them: fixed arrays with counters, changed in place. */
module AccessTables {
  import opened AccessSpec
  import opened Widths

  /** Part of an array in use. */
  function Used(a: array<Ip>, count: nat): (s: seq<Ip>)
    reads a
    requires count <= a.Length
    ensures |s| == count && forall i :: 0 <= i < count ==> s[i] == a[i]
  {
    a[..count]
  }

  /** The DNS authentication list. */
  class AuthList {
    const ips: array<Ip>
    var count: nat

    ghost predicate Valid() reads this { ips.Length == MAX_CLIENTS && count <= MAX_CLIENTS }

    ghost function List(): seq<Ip> reads this, ips requires Valid() { Used(ips, count) }

    constructor ()
      ensures Valid() && List() == [] && fresh(ips)
    {
      ips := new Ip[MAX_CLIENTS](_ => 0);
      count := 0;
    }

    method IsAuthenticated(ip: Ip) returns (found: bool)
      requires Valid()
      ensures found <==> ip in List()
    {
      for i := 0 to count
        invariant ip !in List()[..i]
      {
        if ips[i] == ip { return true; }
        assert List()[..i + 1] == List()[..i] + [ips[i]];
      }
      assert List()[..count] == List();
      return false;
    }

    method SetAuthenticated(ip: Ip, authenticated: bool)
      requires Valid()
      modifies this, ips
      ensures Valid()
      ensures List() == AccessSpec.SetAuthenticated(old(List()), ip, authenticated)
    {
      ghost var was := List();
      if authenticated {
        var found := IsAuthenticated(ip);
        if found { return; }
        if count < MAX_CLIENTS {
          ips[count] := ip;
          count := count + 1;
          assert List() == was + [ip];
        }
      } else {
        for i := 0 to count
          invariant forall j :: 0 <= j < i ==> was[j] != ip
          invariant count == old(count) && List() == was
        {
          if ips[i] == ip {
            assert IndexOf(was, ip) == i;
            ips[i] := ips[count - 1];
            count := count - 1;
            assert List() == SwapRemove(was, ip);
            return;
          }
        }
        assert IndexOf(was, ip) == |was|;
      }
    }
  }

  /** The firewall's clients; granting and revoking also tells the DNS list. */
  class Firewall {
    const clients: array<Ip>
    var count: nat
    const dns: AuthList

    ghost predicate Valid() reads this, dns {
      clients.Length == MAX_CLIENTS && count <= MAX_CLIENTS && dns.Valid() && clients != dns.ips
    }

    ghost function Clients(): seq<Ip> reads this, dns, clients requires Valid() { Used(clients, count) }

    constructor (dns: AuthList)
      requires dns.Valid()
      ensures Valid() && Clients() == [] && this.dns == dns && fresh(clients)
    {
      clients := new Ip[MAX_CLIENTS](_ => 0);
      count := 0;
      this.dns := dns;
    }

    method IsAllowed(ip: Ip) returns (found: bool)
      requires Valid()
      ensures found <==> ip in Clients()
    {
      for i := 0 to count
        invariant ip !in Clients()[..i]
      {
        if clients[i] == ip { return true; }
        assert Clients()[..i + 1] == Clients()[..i] + [clients[i]];
      }
      assert Clients()[..count] == Clients();
      return false;
    }

    method Grant(ip: Ip)
      requires Valid()
      modifies this, clients, dns, dns.ips
      ensures Valid()
      ensures forall st: State :: st.clients == old(Clients()) && st.auth == old(dns.List()) ==>
                AccessSpec.Grant(st, ip) == st.(clients := Clients(), auth := dns.List())
    {
      ghost var was := Clients();
      var found := IsAllowed(ip);
      if found || count >= MAX_CLIENTS { return; }
      clients[count] := ip;
      count := count + 1;
      dns.SetAuthenticated(ip, true);
      assert Clients() == was + [ip];
    }

    method Revoke(ip: Ip)
      requires Valid()
      modifies this, clients, dns, dns.ips
      ensures Valid()
      ensures forall st: State :: st.clients == old(Clients()) && st.auth == old(dns.List()) ==>
                AccessSpec.Revoke(st, ip) == st.(clients := Clients(), auth := dns.List())
    {
      ghost var was := Clients();
      for i := 0 to count
        invariant forall j :: 0 <= j < i ==> was[j] != ip
        invariant count == old(count) && Clients() == was && dns.List() == old(dns.List()) && Valid()
      {
        if clients[i] == ip {
          assert IndexOf(was, ip) == i;
          clients[i] := clients[count - 1];
          count := count - 1;
          dns.SetAuthenticated(ip, false);
          assert Clients() == SwapRemove(was, ip);
          return;
        }
      }
      assert IndexOf(was, ip) == |was|;
    }
  }

  /** The session slots. */
  class SessionTable {
    const sessions: array<Session>
    var count: int
    const firewall: Firewall

    ghost predicate Valid() reads this, firewall, firewall.dns {
      firewall.Valid() && sessions.Length == MAX_CLIENTS
    }

    ghost function State(): (st: State)
      reads this, sessions, firewall, firewall.clients, firewall.dns, firewall.dns.ips
      requires Valid()
      ensures |st.sessions| == MAX_CLIENTS
    {
      AccessSpec.State(sessions[..], count, firewall.Clients(), firewall.dns.List())
    }

    constructor (firewall: Firewall)
      requires firewall.Valid() && firewall.Clients() == [] == firewall.dns.List()
      ensures Valid() && State() == Initial() && this.firewall == firewall && fresh(sessions)
    {
      sessions := new Session[MAX_CLIENTS](_ => Session(0, 0, 0, false));
      count := 0;
      this.firewall := firewall;
      new;
      assert sessions[..] == Initial().sessions;
    }

    method FindByIp(ip: Ip) returns (slot: nat)
      requires Valid()
      ensures slot == Find(State().sessions, ip)
    {
      slot := 0;
      while slot < MAX_CLIENTS
        invariant slot <= MAX_CLIENTS
        invariant forall j :: 0 <= j < slot ==> !(sessions[j].active && sessions[j].ip == ip)
      {
        if sessions[slot].active && sessions[slot].ip == ip { return; }
        slot := slot + 1;
      }
    }

    method IsExpired(slot: nat, now: int) returns (expired: bool)
      requires Valid() && slot < MAX_CLIENTS
      ensures expired == Expired(State().sessions[slot], now)
    {
      if !sessions[slot].active { return true; }
      var elapsed := now - sessions[slot].startMs;
      return elapsed >= AsInt64(sessions[slot].allotmentMs);
    }

    method Extend(slot: nat, ms: U64)
      requires Valid() && slot < MAX_CLIENTS
      modifies sessions
      ensures Valid()
      ensures var s := old(State()).sessions[slot];
              State() == old(State()).(sessions := old(State()).sessions[slot := if s.active then AccessSpec.Extend(s, ms) else s])
    {
      var s := sessions[slot];
      if !s.active { return; }
      sessions[slot] := s.(allotmentMs := (s.allotmentMs + ms) % TWO64);
    }

    method Revoke(slot: nat)
      requires Valid() && slot < MAX_CLIENTS
      modifies this, sessions, firewall, firewall.clients, firewall.dns, firewall.dns.ips
      ensures Valid() && State() == RevokeSlot(old(State()), slot)
    {
      ghost var was := State();
      var s := sessions[slot];
      if !s.active { return; }
      firewall.Revoke(s.ip);
      sessions[slot] := s.(active := false);
      count := count - 1;
    }

    method Create(ip: Ip, ms: U64, now: int) returns (created: bool)
      requires Valid()
      modifies this, sessions, firewall, firewall.clients, firewall.dns, firewall.dns.ips
      ensures Valid() && State() == AccessSpec.Create(old(State()), ip, ms, now)
      ensures created == Created(old(State()), ip, now)
    {
      var existing := FindByIp(ip);
      if existing < MAX_CLIENTS {
        Extend(existing, ms);
        return true;
      }
      EvictExpired(now);
      created := TakeSlot(ip, ms, now);
    }

    /** The first half of create: a full table gives up one expired session. */
    method EvictExpired(now: int)
      requires Valid()
      modifies this, sessions, firewall, firewall.clients, firewall.dns, firewall.dns.ips
      ensures Valid() && State() == MakeRoom(old(State()), now)
    {
      hide RevokeSlot;
      ghost var was := State();
      if count >= MAX_CLIENTS {
        for i := 0 to MAX_CLIENTS
          invariant Valid() && State() == was
          invariant forall j :: 0 <= j < i ==> !Expired(was.sessions[j], now)
        {
          var expired := IsExpired(i, now);
          if expired {
            Revoke(i);
            return;
          }
        }
      }
    }

    /** The second half of create: the first free slot. */
    method TakeSlot(ip: Ip, ms: U64, now: int) returns (created: bool)
      requires Valid()
      modifies this, sessions, firewall, firewall.clients, firewall.dns, firewall.dns.ips
      ensures Valid() && State() == Occupy(old(State()), ip, ms, now)
      ensures created == (FirstFree(old(State()).sessions) < MAX_CLIENTS)
    {
      ghost var was := State();
      for i := 0 to MAX_CLIENTS
        invariant Valid() && State() == was
        invariant forall j :: 0 <= j < i ==> was.sessions[j].active
      {
        if !sessions[i].active {
          sessions[i] := Session(ip, ms, now, true);
          count := count + 1;
          firewall.Grant(ip);
          return true;
        }
      }
      return false;
    }

    method Tick(now: int)
      requires Valid()
      modifies this, sessions, firewall, firewall.clients, firewall.dns, firewall.dns.ips
      ensures Valid() && State() == TickFrom(old(State()), 0, now)
    {
      ghost var was := State();
      for i := 0 to MAX_CLIENTS
        invariant Valid()
        invariant TickFrom(State(), i, now) == TickFrom(was, 0, now)
      {
        var expired := IsExpired(i, now);
        if sessions[i].active && expired { Revoke(i); }
      }
    }

    method RevokeAll()
      requires Valid()
      modifies this, sessions, firewall, firewall.clients, firewall.dns, firewall.dns.ips
      ensures Valid() && State() == RevokeFrom(old(State()), 0)
    {
      ghost var was := State();
      for i := 0 to MAX_CLIENTS
        invariant Valid()
        invariant RevokeFrom(State(), i) == RevokeFrom(was, 0)
      {
        if sessions[i].active { Revoke(i); }
      }
    }

    method ActiveCount() returns (n: nat)
      requires Valid()
      ensures n == Actives(State().sessions)
    {
      n := 0;
      for i := 0 to MAX_CLIENTS
        invariant Actives(sessions[..]) == n + Actives(sessions[i..])
      {
        assert sessions[i..][1..] == sessions[i + 1..];
        if sessions[i].active { n := n + 1; }
      }
    }
  }
}
