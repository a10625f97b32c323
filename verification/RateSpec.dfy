/** The limiter of events and requests: a minute's window for each connection, sixteen connections. */
module RateSpec {
  import opened Widths
  const BUCKETS := 16
  const WINDOW: nat := 60

  type Seconds = n: nat | n < TWO32
  type U16 = n: nat | n < 0x1_0000

  datatype Kind = Event | Req

  datatype Config = Config(events: U16, reqs: U16) {
    function Limit(k: Kind): U16 { if k.Event? then events else reqs }
  }

  datatype Bucket = Bucket(fd: int, events: U16, reqs: U16, start: Seconds, active: bool) {
    function Count(k: Kind): U16 { if k.Event? then events else reqs }
  }

  datatype Call = Call(fd: int, kind: Kind, now: Seconds)

  function Blank(): Bucket { Bucket(0, 0, 0, 0, false) }

  function Opened(fd: int, now: Seconds): Bucket { Bucket(fd, 0, 0, now, true) }

  function Find(bs: seq<Bucket>, fd: int): (i: nat)
    ensures i <= |bs| && (i < |bs| ==> bs[i].active && bs[i].fd == fd)
    ensures forall j :: 0 <= j < i ==> !(bs[j].active && bs[j].fd == fd)
  {
    if bs == [] then 0 else if bs[0].active && bs[0].fd == fd then 0 else 1 + Find(bs[1..], fd)
  }

  function FirstFree(bs: seq<Bucket>): (i: nat)
    ensures i <= |bs| && (i < |bs| ==> !bs[i].active) && forall j :: 0 <= j < i ==> bs[j].active
  {
    if bs == [] then 0 else if !bs[0].active then 0 else 1 + FirstFree(bs[1..])
  }

  /** The bucket at the time of a call: 32-bit subtraction tells whether its window is over. */
  function Rolled(b: Bucket, now: Seconds): Bucket {
    if (now - b.start) % TWO32 >= WINDOW then Bucket(b.fd, 0, 0, now, b.active) else b
  }

  predicate Admits(b: Bucket, cfg: Config, k: Kind) { b.Count(k) < cfg.Limit(k) }

  function Charged(b: Bucket, cfg: Config, k: Kind): Bucket {
    if !Admits(b, cfg, k) then b
    else if k.Event? then b.(events := b.events + 1)
    else b.(reqs := b.reqs + 1)
  }

  /** One call on its own bucket. */
  function Touched(b: Bucket, cfg: Config, c: Call): Bucket { Charged(Rolled(b, c.now), cfg, c.kind) }

  /** rate_limiter_check: the buckets after the call, and whether it is let through. */
  function Check(bs: seq<Bucket>, cfg: Config, c: Call): (seq<Bucket>, bool) {
    var i, n := Find(bs, c.fd), FirstFree(bs);
    if i < |bs| then (bs[i := Touched(bs[i], cfg, c)], Admits(Rolled(bs[i], c.now), cfg, c.kind))
    else if n < |bs| then
      var b := Opened(c.fd, c.now);
      (bs[n := Touched(b, cfg, c)], Admits(Rolled(b, c.now), cfg, c.kind))
    else (bs, false)
  }

  function Run(cfg: Config, calls: seq<Call>): seq<Bucket> {
    if calls == [] then seq(BUCKETS, _ => Blank())
    else Check(Run(cfg, calls[..|calls| - 1]), cfg, calls[|calls| - 1]).0
  }

  /** The answer to the k-th call of a run. */
  predicate Answer(cfg: Config, calls: seq<Call>, k: nat)
    requires k < |calls|
  {
    Check(Run(cfg, calls[..k]), cfg, calls[k]).1
  }

  // ----- the run as each connection sees it

  /** The first sixteen connections that ever called, in the order of their first calls. */
  function Owners(calls: seq<Call>): seq<int> {
    if calls == [] then []
    else
      var before, fd := Owners(calls[..|calls| - 1]), calls[|calls| - 1].fd;
      if fd in before || |before| >= BUCKETS then before else before + [fd]
  }

  /** A connection's own calls. */
  function Own(calls: seq<Call>, fd: int): seq<Call> {
    if calls == [] then []
    else
      var before, last := Own(calls[..|calls| - 1], fd), calls[|calls| - 1];
      if last.fd == fd then before + [last] else before
  }

  /** The bucket of a connection that is alone with the limiter. */
  function Alone(cfg: Config, own: seq<Call>): Bucket {
    if own == [] then Blank()
    else
      var last := own[|own| - 1];
      if |own| == 1 then Touched(Opened(last.fd, last.now), cfg, last)
      else Touched(Alone(cfg, own[..|own| - 1]), cfg, last)
  }

  /** How many calls of one kind a connection gets through, from call i until before call n. */
  function Admitted(cfg: Config, calls: seq<Call>, fd: int, k: Kind, i: nat, n: nat): nat
    requires i <= n <= |calls|
  {
    if i == n then 0
    else
      Admitted(cfg, calls, fd, k, i, n - 1)
      + if calls[n - 1].fd == fd && calls[n - 1].kind == k && Answer(cfg, calls, n - 1) then 1 else 0
  }

  predicate InOrder(calls: seq<Call>) { forall i, j :: 0 <= i < j < |calls| ==> calls[i].now <= calls[j].now }
}
