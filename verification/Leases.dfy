/**
Server-side expiry in whole seconds: etcd leases and memcached exptimes.  Keyv's deadlines are in
milliseconds, so a lease must be rounded up to never end before its deadline.
*/
module Leases {
  import opened Wrappers

  function Max(a: int, b: int): int { if a >= b then a else b }

  // ----- etcd -----

  datatype Stored = Stored(value: string, lease: Option<nat>)

  /** The pairs whose lease, if they have one, has not been revoked. */
  function Kept(kvs: map<string, Stored>, revoked: set<nat>): map<string, Stored> {
    map k | k in kvs && (kvs[k].lease.Some? ==> kvs[k].lease.value !in revoked) :: kvs[k]
  }

  /** The client, with the server behind it. */
  class EtcdClient {
    /** When each granted lease ends: its grant time plus its duration. */
    var leases: seq<int>
    var revoked: set<nat>
    var kvs: map<string, Stored>
    ghost var clock: int

    constructor (ghost now: int)
      ensures leases == [] && revoked == {} && kvs == map[] && clock == now && Valid()
    {
      clock := now;
      leases := [];
      revoked := {};
      kvs := map[];
    }

    /** Only ended leases are revoked, and what was stored with one goes with it. */
    ghost predicate Valid()
      reads this
    {
      && (forall id :: id in revoked ==> id < |leases| && leases[id] <= clock)
      && (forall k :: k in kvs && kvs[k].lease.Some? ==> kvs[k].lease.value < |leases| && kvs[k].lease.value !in revoked)
    }

    /** The server takes a whole number of seconds, at least one; a fraction is cut off. */
    method LeaseGrant(ttlSeconds: real, now: int) returns (id: nat)
      requires Valid()
      modifies this`leases
      ensures Valid() && id == |old(leases)| && leases == old(leases) + [EndFrom(now, ttlSeconds)]
    {
      id := |leases|;
      var seconds := Max(ttlSeconds.Floor, 1);
      leases := leases + [now + 1000 * seconds];
    }

    /** The server revokes those of the given leases that have ended. */
    method Reap(ids: set<nat>, now: int)
      requires Valid() && now >= clock
      modifies this`revoked, this`kvs, this`clock
      ensures Valid() && clock == now && kvs == Kept(old(kvs), revoked)
      ensures revoked == old(revoked) + set id | id in ids && id < |leases| && leases[id] <= now
    {
      clock := now;
      revoked := revoked + set id | id in ids && id < |leases| && leases[id] <= now;
      kvs := Kept(kvs, revoked);
    }

    /** The server has revoked any of the ended leases, or none, when the request arrives.  A put with a lease that
        has been revoked is an error: the requested lease is not found. */
    method PutRaw(key: string, value: string, lease: Option<nat>, now: int) returns (ok: bool)
      requires Valid() && now >= clock && (lease.Some? ==> lease.value < |leases|)
      modifies this`revoked, this`kvs, this`clock
      ensures Valid() && clock == now && old(revoked) <= revoked
      ensures ok <==> (lease.Some? ==> lease.value !in revoked)
      ensures kvs == if ok then Kept(old(kvs), revoked)[key := Stored(value, lease)] else Kept(old(kvs), revoked)
    {
      var ids: set<nat> := *;
      Reap(ids, now);
      ok := lease.None? || lease.value !in revoked;
      if ok { kvs := kvs[key := Stored(value, lease)]; }
    }
  }

  /** When a lease of `ttlSeconds` ends that is granted at `granted`. */
  function EndFrom(granted: int, ttlSeconds: real): int { granted + 1000 * Max(ttlSeconds.Floor, 1) }

  /** A lease that is granted at its first use, once and for all. */
  class Lease {
    const client: EtcdClient
    const ttlSeconds: real
    var granted: Option<nat>
    /** The time of the grant. */
    ghost var grantedAt: int

    constructor (client: EtcdClient, ttlSeconds: real)
      ensures this.client == client && this.ttlSeconds == ttlSeconds && granted == None
    {
      this.client := client;
      this.ttlSeconds := ttlSeconds;
      granted := None;
    }

    ghost predicate Valid()
      reads this, client
    {
      granted.Some? ==> granted.value < |client.leases| && client.leases[granted.value] == End(0)
    }

    /** When the lease was or, if it has not been used, would be granted by a use at `now`. */
    ghost function GrantTime(now: int): int
      reads this
    {
      if granted.Some? then grantedAt else now
    }

    /** When the lease ends, if it is used at `now` or was before. */
    ghost function End(now: int): int
      reads this
    {
      EndFrom(GrantTime(now), ttlSeconds)
    }

    /** The server has taken the lease away. */
    ghost predicate Revoked()
      reads this, client
    {
      granted.Some? && granted.value in client.revoked
    }

    /** A use of the lease is refused only when the lease has ended, and always once it has been revoked. */
    method Put(key: string, value: string, now: int) returns (ok: bool)
      requires Valid() && client.Valid() && now >= client.clock
      modifies this, client
      ensures Valid() && client.Valid() && client.clock == now && granted.Some?
      ensures grantedAt == old(GrantTime(now)) && (old(granted).Some? ==> granted == old(granted))
      ensures (!ok <==> Revoked()) && (!ok ==> End(now) <= now) && (old(Revoked()) ==> !ok)
      ensures old(client.leases) <= client.leases && old(client.revoked) <= client.revoked
      ensures client.kvs == if ok then Kept(old(client.kvs), client.revoked)[key := Stored(value, granted)]
                            else Kept(old(client.kvs), client.revoked)
    {
      if granted.None? {
        var id := client.LeaseGrant(ttlSeconds, now);
        granted := Some(id);
        grantedAt := now;
      }
      ok := client.PutRaw(key, value, granted, now);
    }
  }

  class KeyvEtcd {
    const client: EtcdClient
    var ttl: Option<int>
    var lease: Option<Lease>
    /** The default ttl the lease was made for. */
    ghost var leaseTtl: int

    constructor (client: EtcdClient, ttl: Option<int>)
      requires client.Valid()
      ensures this.client == client && this.ttl == ttl && Valid()
      ensures lease.Some? <==> ttl.Some?
      ensures lease.Some? ==> fresh(lease.value) && lease.value.granted == None && leaseTtl == ttl.value
    {
      this.client := client;
      this.ttl := ttl;
      if ttl.Some? {
        var l := new Lease(client, Seconds(ttl.value));
        lease := Some(l);
        leaseTtl := ttl.value;
      } else {
        lease := None;
      }
    }

    ghost predicate Valid()
      reads this, client, if lease.Some? then {lease.value} else {}
    {
      && client.Valid()
      && (lease.Some? ==>
            lease.value.client == client && lease.value.Valid() && lease.value.ttlSeconds == Seconds(leaseTtl))
    }

    /** The setter of `ttl` makes, changes and drops no lease. */
    method SetTtl(value: Option<int>)
      requires Valid()
      modifies this`ttl
      ensures Valid() && ttl == value
    {
      ttl := value;
    }

    /** When the stored key's lease ends; `None` without a lease. */
    ghost function Ends(key: string): Option<int>
      reads client
    {
      if key in client.kvs && client.kvs[key].lease.Some? && client.kvs[key].lease.value < |client.leases|
      then Some(client.leases[client.kvs[key].lease.value]) else None
    }

    /** The write is dropped: there is a default ttl, but no lease for it. */
    predicate Drops(expires: Option<int>)
      reads this
    {
      expires.None? && ttl.Some? && lease.None?
    }

    /** The write goes to the lease made when the adapter was constructed. */
    predicate UsesDefaultLease(expires: Option<int>)
      reads this
    {
      expires.None? && ttl.Some? && lease.Some?
    }

    /** The default lease has been revoked. */
    ghost predicate Spent()
      reads this, client, if lease.Some? then {lease.value} else {}
    {
      lease.Some? && lease.value.granted.Some? && lease.value.granted.value in client.revoked
    }

    /** A write is stored unless it is dropped, which is reported as stored, or refused.  With a deadline it gets
        a lease of its own, is never refused, and ends neither before the deadline nor, when that is not past, a
        second after it.  A write to the default lease is refused exactly when the server has revoked that
        lease, so never before its end and ever after; if taken, it is kept for the default ttl exactly when it
        is in time. */
    method Set(key: string, value: string, expires: Option<int>, now: int) returns (ok: bool)
      requires Valid() && now >= client.clock
      modifies client, if lease.Some? then {lease.value} else {}
      ensures Valid() && client.clock == now
      ensures old(client.leases) <= client.leases && old(client.revoked) <= client.revoked
      ensures lease.Some? && old(lease.Some? && lease.value.granted.Some?) ==>
                lease.value.granted == old(if lease.Some? then lease.value.granted else None)
      ensures Drops(expires) ==> ok && client.kvs == old(client.kvs)
      ensures !ok <==> UsesDefaultLease(expires) && Spent()
      ensures !ok ==> lease.value.End(now) <= now && client.kvs == Kept(old(client.kvs), client.revoked)
      ensures ok && !Drops(expires) ==>
                key in client.kvs && client.kvs == Kept(old(client.kvs), client.revoked)[key := Stored(value, client.kvs[key].lease)]
      ensures !Drops(expires) && expires.None? && ttl.None? ==> Ends(key) == None
      ensures expires.Some? ==>
                Ends(key).Some? && Ends(key).value >= expires.value && Ends(key).value < Max(expires.value, now) + 1001
      ensures UsesDefaultLease(expires) ==>
                lease.value.granted.Some? && lease.value.grantedAt == old(if lease.Some? then lease.value.GrantTime(now) else now)
      ensures UsesDefaultLease(expires) && ok ==>
                && client.kvs[key].lease == lease.value.granted && Ends(key) == Some(lease.value.End(now))
                && (Ends(key).value >= now + ttl.value <==> InTime(ttl.value, leaseTtl, lease.value.grantedAt, now))
    {
      ok := true;
      match expires {
        case Some(e) =>
          var leaseSec := Max(CeilSeconds(e - now), 1);
          var own := new Lease(client, leaseSec as real);
          ok := own.Put(key, value, now);
        case None =>
          if ttl.None? {
            ok := client.PutRaw(key, value, None, now);
          } else if lease.Some? {
            ok := lease.value.Put(key, value, now);
            FloorOfSeconds(leaseTtl);
          } else {
            client.clock := now;
          }
      }
    }
  }

  /** `ttl / 1000`. */
  function Seconds(ttl: int): real { ttl as real / 1000.0 }

  lemma FloorOfSeconds(ttl: int)
    ensures Seconds(ttl).Floor == ttl / 1000
  {
    var q, r := ttl / 1000, ttl % 1000;
    assert ttl as real == 1000.0 * q as real + r as real;
    assert Seconds(ttl) == q as real + r as real / 1000.0;
    assert 0.0 <= r as real / 1000.0 < 1.0;
  }

  /** The time since the grant is no longer than what the whole seconds of the ttl the lease was made for
      exceed the ttl. */
  predicate InTime(ttl: int, leaseTtl: int, granted: int, now: int) {
    now - granted <= 1000 * Max(leaseTtl / 1000, 1) - ttl
  }

  /** For an unchanged ttl: one of less than a second leaves room up to that second; a longer one must be a
      whole number of seconds, and the write the one the lease is granted with. */
  lemma InTimeExactly(ttl: int, granted: int, now: int)
    requires granted <= now
    ensures InTime(ttl, ttl, granted, now) <==>
            if ttl < 1000 then now - granted <= 1000 - ttl else now == granted && ttl % 1000 == 0
  {
    assert ttl == 1000 * (ttl / 1000) + ttl % 1000;
  }

  // ----- Runs of one adapter -----

  datatype Request =
    | Write(key: string, value: string, expires: Option<int>, now: int)
    | ChangeTtl(ttl: Option<int>)

  /** The default ttl after some requests. */
  function TtlAfter(ttl: Option<int>, requests: seq<Request>): Option<int> {
    if requests == [] then ttl
    else
      var last := requests[|requests| - 1];
      if last.ChangeTtl? then last.ttl else TtlAfter(ttl, requests[..|requests| - 1])
  }

  predicate Ordered(requests: seq<Request>, clock: int) {
    && (forall i :: 0 <= i < |requests| && requests[i].Write? ==> requests[i].now >= clock)
    && (forall i, j :: 0 <= i < j < |requests| && requests[i].Write? && requests[j].Write? ==>
          requests[i].now <= requests[j].now)
  }

  /** The i-th request is a write to the default lease, if there is one. */
  predicate DefaultWrite(ttl: Option<int>, requests: seq<Request>, i: nat)
    requires i < |requests|
  {
    requests[i].Write? && requests[i].expires.None? && TtlAfter(ttl, requests[..i]).Some?
  }

  /** In every run, whenever the server revokes what has ended: only writes to the default lease are refused,
      only after the lease has ended, and once one has been refused all later ones are. */
  method Run(adapter: KeyvEtcd, requests: seq<Request>) returns (oks: seq<bool>)
    requires adapter.Valid() && Ordered(requests, adapter.client.clock)
    modifies adapter, adapter.client, if adapter.lease.Some? then {adapter.lease.value} else {}
    ensures adapter.Valid() && adapter.lease == old(adapter.lease) && |oks| == |requests|
    ensures forall i :: 0 <= i < |requests| && !oks[i] ==>
              && DefaultWrite(old(adapter.ttl), requests, i)
              && adapter.lease.Some? && adapter.lease.value.granted.Some?
              && adapter.lease.value.End(0) <= requests[i].now
    ensures forall i, j :: 0 <= i < j < |requests| && !oks[i] && DefaultWrite(old(adapter.ttl), requests, j) ==> !oks[j]
  {
    oks := [];
    var n := 0;
    while n < |requests|
      invariant n <= |requests| && |oks| == n
      invariant adapter.Valid() && adapter.lease == old(adapter.lease)
      invariant adapter.ttl == TtlAfter(old(adapter.ttl), requests[..n])
      invariant forall i :: n <= i < |requests| && requests[i].Write? ==> requests[i].now >= adapter.client.clock
      invariant forall i :: 0 <= i < n && !oks[i] ==>
        && DefaultWrite(old(adapter.ttl), requests, i) && adapter.Spent()
        && adapter.lease.value.End(0) <= requests[i].now
      invariant forall i, j :: 0 <= i < j < n && !oks[i] && DefaultWrite(old(adapter.ttl), requests, j) ==> !oks[j]
    {
      assert requests[..n + 1][..n] == requests[..n];
      var ok := true;
      match requests[n] {
        case Write(key, value, expires, now) => ok := adapter.Set(key, value, expires, now);
        case ChangeTtl(ttl) => adapter.SetTtl(ttl);
      }
      oks := oks + [ok];
      n := n + 1;
    }
    assert requests[..|requests|] == requests;
  }

  // ----- Witnesses -----

  /** Under every default ttl of at least a second, a second write that comes before the lease of the first one
      has ended is taken, but gone before its own ttl is over. */
  method SecondWriteEndsEarly(ttl: int, first: string, second: string, value: string, start: int, wait: nat)
    returns (adapter: KeyvEtcd, ok: bool)
    requires ttl >= 1000 && 0 < wait < 1000 * (ttl / 1000)
    ensures ok && second in adapter.client.kvs && adapter.client.kvs[second].value == value && adapter.Ends(second).Some?
    ensures adapter.Ends(second).value < start + wait + ttl
  {
    var client := new EtcdClient(start);
    adapter := new KeyvEtcd(client, Some(ttl));
    var _ := adapter.Set(first, value, None, start);
    ok := adapter.Set(second, value, None, start + wait);
    FloorOfSeconds(ttl);
    assert adapter.lease.value.grantedAt == start;
  }

  /** Once the server has revoked the default lease, a write without a deadline is refused, and nothing is
      stored under its key however often it is tried. */
  method LateWritesAreRefused(ttl: int, first: string, second: string, value: string, start: int, waits: seq<nat>)
    returns (adapter: KeyvEtcd, oks: seq<bool>)
    requires ttl >= 1000 && forall i :: 0 <= i < |waits| ==> ttl <= waits[i] && (i > 0 ==> waits[i - 1] <= waits[i])
    ensures |oks| == |waits| && forall i :: 0 <= i < |waits| ==> !oks[i]
    ensures adapter.client.kvs == map[]
  {
    var client := new EtcdClient(start);
    adapter := new KeyvEtcd(client, Some(ttl));
    var _ := adapter.Set(first, value, None, start);
    FloorOfSeconds(ttl);
    client.Reap({adapter.lease.value.granted.value}, start + ttl);
    oks := [];
    for i := 0 to |waits|
      invariant adapter.Valid() && adapter.client == client && adapter.ttl == Some(ttl)
      invariant fresh(client) && adapter.lease.Some? && fresh(adapter.lease.value)
      invariant adapter.Spent() && client.kvs == map[]
      invariant client.clock == if i == 0 then start + ttl else start + waits[i - 1]
      invariant |oks| == i && forall j :: 0 <= j < i ==> !oks[j]
    {
      var ok := adapter.Set(second, value, None, start + waits[i]);
      oks := oks + [ok];
    }
  }

  /** After the ttl of an adapter that had none is set, writes without a deadline are lost, though reported
      as stored. */
  method LateTtlDropsWrites(ttl: int, key: string, value: string, now: int) returns (adapter: KeyvEtcd, ok: bool)
    ensures ok && adapter.client.kvs == map[]
  {
    var client := new EtcdClient(now);
    adapter := new KeyvEtcd(client, None);
    adapter.SetTtl(Some(ttl));
    ok := adapter.Set(key, value, None, now);
  }

  // ----- memcached -----

  const THIRTY_DAYS: int := 2_592_000

  function Exptime(expires: Option<int>, now: int): int {
    match expires
    case None => 0
    case Some(e) =>
      if e - now > 1000 * THIRTY_DAYS then CeilSeconds(e) else Max(1, CeilSeconds(e - now))
  }

  /** How the server reads an exptime: never, an absolute time, or a duration. */
  function Deadline(exptime: int, now: int): Option<int> {
    if exptime == 0 then None
    else if exptime > 2_592_000 then Some(1000 * exptime)
    else Some(now + 1000 * exptime)
  }

  /** An item never expires without a deadline, never before its deadline, and less than a second after it
      when that is not past. */
  lemma ExptimeNeverEarly(expires: Option<int>, now: int)
    requires now >= 0
    ensures match expires
            case None => Deadline(Exptime(expires, now), now) == None
            case Some(e) => var d := Deadline(Exptime(expires, now), now);
                            d.Some? && e <= d.value && d.value < Max(e, now + 1) + 1000
  {}
}
