/** The limiter's buckets, changed in place. */
module RateLimiters {
  import opened RateSpec
  import opened Widths

  class RateLimiter {
    const config: Config
    const buckets: array<Bucket>

    ghost predicate Valid() reads this, buckets {
      buckets.Length == BUCKETS
    }

    ghost function Buckets(): (bs: seq<Bucket>)
      reads this, buckets
      requires Valid()
      ensures |bs| == BUCKETS && forall i :: 0 <= i < BUCKETS ==> bs[i] == buckets[i]
    {
      buckets[..]
    }

    constructor (config: Config)
      ensures Valid() && Buckets() == Run(config, []) && this.config == config && fresh(buckets)
    {
      this.config := config;
      buckets := new Bucket[BUCKETS](_ => Blank());
    }

    method FindBucket(fd: int) returns (i: nat)
      requires Valid()
      ensures i == Find(Buckets(), fd)
    {
      i := 0;
      while i < BUCKETS
        invariant i <= BUCKETS
        invariant forall j :: 0 <= j < i ==> !(buckets[j].active && buckets[j].fd == fd)
      {
        if buckets[i].active && buckets[i].fd == fd { return; }
        i := i + 1;
      }
    }

    /** get_bucket: the connection's bucket, or a free one opened for it, or none. */
    method GetBucket(fd: int, now: Seconds) returns (i: nat)
      requires Valid()
      modifies buckets
      ensures Valid()
      ensures var was := old(Buckets());
              if Find(was, fd) < BUCKETS then i == Find(was, fd) && Buckets() == was
              else if FirstFree(was) < BUCKETS then i == FirstFree(was) && Buckets() == was[i := Opened(fd, now)]
              else i == BUCKETS && Buckets() == was
    {
      i := FindBucket(fd);
      if i < BUCKETS { return; }
      i := 0;
      while i < BUCKETS
        invariant i <= BUCKETS && Buckets() == old(Buckets())
        invariant forall j :: 0 <= j < i ==> buckets[j].active
      {
        if !buckets[i].active {
          buckets[i] := Bucket(fd, 0, 0, now, true);
          return;
        }
        i := i + 1;
      }
    }

    /** rate_limiter_check */
    method Check(fd: int, kind: Kind, now: Seconds) returns (allowed: bool)
      requires Valid()
      modifies buckets
      ensures Valid()
      ensures (Buckets(), allowed) == RateSpec.Check(old(Buckets()), config, Call(fd, kind, now))
    {
      ghost var was := Buckets();
      var i := GetBucket(fd, now);
      if i == BUCKETS { return false; }
      ghost var b := buckets[i];
      if (now - buckets[i].start) % TWO32 >= WINDOW {
        buckets[i] := buckets[i].(events := 0, reqs := 0, start := now);
      }
      assert buckets[i] == Rolled(b, now);
      allowed := true;
      if kind.Event? {
        if buckets[i].events >= config.events {
          allowed := false;
        } else {
          buckets[i] := buckets[i].(events := buckets[i].events + 1);
        }
      } else {
        if buckets[i].reqs >= config.reqs {
          allowed := false;
        } else {
          buckets[i] := buckets[i].(reqs := buckets[i].reqs + 1);
        }
      }
      assert Buckets() == was[i := Touched(b, config, Call(fd, kind, now))];
    }

    /** rate_limiter_reset */
    method Reset(fd: int)
      requires Valid()
      modifies buckets
      ensures Valid()
      ensures var was, i := old(Buckets()), Find(old(Buckets()), fd);
              Buckets() == if i < BUCKETS then was[i := was[i].(active := false)] else was
      ensures OneEach(old(Buckets())) ==> OneEach(Buckets()) && Find(Buckets(), fd) == BUCKETS
      ensures forall other :: other != fd ==> SameBucket(old(Buckets()), Buckets(), other)
    {
      ghost var was := Buckets();
      var i := FindBucket(fd);
      if i < BUCKETS {
        buckets[i] := buckets[i].(active := false);
        Freed(was, i);
      }
    }
  }

  /** No connection has two buckets. */
  predicate OneEach(bs: seq<Bucket>) {
    forall i, j :: 0 <= i < j < |bs| && bs[i].active && bs[j].active ==> bs[i].fd != bs[j].fd
  }

  /** The connection is found at the same place, with the same bucket. */
  predicate SameBucket(was: seq<Bucket>, now: seq<Bucket>, fd: int) {
    |was| == |now| && Find(now, fd) == Find(was, fd) && (Find(was, fd) < |was| ==> now[Find(was, fd)] == was[Find(was, fd)])
  }

  /** Giving up one bucket takes it from its connection and from no other. */
  lemma Freed(bs: seq<Bucket>, i: nat)
    requires i < |bs| && bs[i].active && i == Find(bs, bs[i].fd)
    ensures var now := bs[i := bs[i].(active := false)];
            && (OneEach(bs) ==> OneEach(now) && Find(now, bs[i].fd) == |bs|)
            && forall other :: other != bs[i].fd ==> SameBucket(bs, now, other)
  {
    var now := bs[i := bs[i].(active := false)];
    forall other | other != bs[i].fd ensures SameBucket(bs, now, other) {
      var a, b := Find(bs, other), Find(now, other);
      if a < |bs| { assert now[a] == bs[a]; }
      if b < |bs| { assert bs[b] == now[b]; }
    }
    if OneEach(bs) {
      assert forall j :: 0 <= j < |now| ==> !(now[j].active && now[j].fd == bs[i].fd);
    }
  }
}
