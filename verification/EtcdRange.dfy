/**
The etcd adapter's prefix ranges.  etcd orders keys as byte strings and scans half-open ranges; the client
turns a prefix into the range from the prefix to the next byte string after all its extensions.
*/
module EtcdRange {
  import opened Wrappers
  import opened Utf8

  type Key = seq<byte>

  /** The order of bytes, then of length. */
  predicate Less(a: Key, b: Key) {
    if a == [] then b != []
    else if b == [] then false
    else if a[0] != b[0] then a[0] < b[0]
    else Less(a[1..], b[1..])
  }

  /** etcd's range: from `start` below `end`, where the end `[0]` means no end. */
  predicate InRange(k: Key, start: Key, end: Key) {
    !Less(k, start) && (end == [0] || Less(k, end))
  }

  /** The start of a prefix scan; the empty prefix starts at the least key. */
  function RangeStart(prefix: Key): Key { if prefix == [] then [0] else prefix }

  lemma Begins(p: Key, k: Key)
    requires p != [] && k != []
    ensures p <= k <==> p[0] == k[0] && p[1..] <= k[1..]
  {
    assert p == [p[0]] + p[1..] && k == [k[0]] + k[1..];
  }

  lemma ExtendsBoth(a: Key, s: Key, t: Key)
    ensures a + s <= a + t <==> s <= t
  {
    assert (a + s)[|a|..] == s && (a + t)[|a|..] == t;
    if s <= t { assert t == s + t[|s|..] && a + t == (a + s) + t[|s|..]; }
  }

  lemma LeastKey(k: Key)
    requires k != []
    ensures !Less(k, [0])
  {
    assert [0][1..] == [];
  }

  lemma {:induction false} PrefixNotLess(p: Key, k: Key)
    requires p <= k
    ensures !Less(k, p)
  {
    if p != [] {
      assert p[0] == k[0] && p[1..] <= k[1..];
      PrefixNotLess(p[1..], k[1..]);
    }
  }

  lemma {:induction false} LessAfter(a: Key, s: Key, t: Key)
    ensures Less(a + s, a + t) <==> Less(s, t)
  {
    if a == [] {
      assert a + s == s && a + t == t;
    } else {
      assert (a + s)[1..] == a[1..] + s && (a + t)[1..] == a[1..] + t;
      LessAfter(a[1..], s, t);
    }
  }

  /** Where two strings part: a key that does not extend `a` compares with all its extensions alike. */
  lemma {:induction false} Parted(a: Key, k: Key, s: Key, t: Key)
    requires !(a <= k) && !(k <= a)
    ensures Less(k, a + s) <==> Less(k, a + t)
  {
    if a[0] == k[0] {
      Begins(a, k);
      Begins(k, a);
      Parted(a[1..], k[1..], s, t);
      assert (a + s)[1..] == a[1..] + s && (a + t)[1..] == a[1..] + t;
    }
  }

  /** A key between a prefix `a + [b]`, whose last byte can be raised, followed by any bytes 0xFF, and
      `a + [b + 1]` begins with it. */
  lemma RangeIsPrefix(a: Key, b: byte, ones: Key, k: Key)
    requires b < 255 && forall i :: 0 <= i < |ones| ==> ones[i] == 255
    ensures InRange(k, a + [b] + ones, a + [b + 1]) <==> a + [b] + ones <= k
  {
    var p, end := a + [b] + ones, a + [b + 1];
    if p <= k {
      PrefixNotLess(p, k);
      assert k == a + ([b] + ones + k[|p|..]);
      LessAfter(a, [b] + ones + k[|p|..], [b + 1]);
    } else if a <= k {
      var r := k[|a|..];
      assert k == a + r && p == a + ([b] + ones);
      LessAfter(a, r, [b] + ones);
      LessAfter(a, r, [b + 1]);
      if r != [] && r[0] == b {
        ExtendsBoth(a, [b] + ones, r);
        Begins([b] + ones, r);
        OnesAreLast(ones, r[1..]);
        assert ([b] + ones)[1..] == ones;
      }
    } else if k <= a {
      assert a == k + a[|k|..];
      assert p == k + (a[|k|..] + [b] + ones);
      LessAfter(k, [], a[|k|..] + [b] + ones);
      assert k + [] == k;
    } else {
      Parted(a, k, [b] + ones, [b + 1]);
      assert p == a + ([b] + ones);
    }
  }

  /** What does not begin with bytes 0xFF is below them. */
  lemma {:induction false} OnesAreLast(ones: Key, r: Key)
    requires forall i :: 0 <= i < |ones| ==> ones[i] == 255
    ensures Less(r, ones) <==> !(ones <= r)
  {
    if ones != [] && r != [] {
      OnesAreLast(ones[1..], r[1..]);
      Begins(ones, r);
    }
  }

  /** The end of the range of a prefix: with the prefix as its start it holds exactly the keys that begin
      with the prefix, also for the empty prefix and for bytes 0xFF. */
  method PrefixEnd(prefix: Key) returns (end: Key)
    ensures forall k: Key :: k != [] ==> (InRange(k, RangeStart(prefix), end) <==> prefix <= k)
  {
    if prefix == [] {
      forall k: Key | k != [] ensures InRange(k, [0], [0]) { LeastKey(k); }
      return [0];
    }
    var i := |prefix| - 1;
    while i >= 0
      invariant -1 <= i < |prefix|
      invariant forall j :: i < j < |prefix| ==> prefix[j] == 255
    {
      if prefix[i] < 255 {
        var out := prefix[..i + 1];
        out := out[i := prefix[i] + 1];
        var a, b, ones := prefix[..i], prefix[i], prefix[i + 1..];
        assert prefix == a + [b] + ones && out == a + [b + 1];
        forall k: Key ensures InRange(k, prefix, out) <==> prefix <= k { RangeIsPrefix(a, b, ones, k); }
        return out;
      }
      i := i - 1;
    }
    forall k: Key ensures InRange(k, prefix, [0]) <==> prefix <= k { OnesAreLast(prefix, k); }
    end := [0];
  }

  // ----- The server and the adapter -----

  /** A stored value with its deadline. */
  datatype Value<V> = Value(v: V, e: Option<int>)

  class EtcdServer<V> {
    var kvs: map<Key, Value<V>>

    constructor ()
      ensures kvs == map[]
    {
      kvs := map[];
    }

    /** etcd has no empty key. */
    ghost predicate Valid()
      reads this
    {
      [] !in kvs
    }

    /** The keys of a range, each once. */
    method Range(key: Key, rangeEnd: Key) returns (keys: seq<Key>)
      ensures forall k :: k in keys <==> k in kvs && InRange(k, key, rangeEnd)
      ensures forall i, j :: 0 <= i < j < |keys| ==> keys[i] != keys[j]
    {
      var todo := set k | k in kvs && InRange(k, key, rangeEnd);
      keys := [];
      while todo != {}
        invariant forall k :: k in keys || k in todo <==> k in kvs && InRange(k, key, rangeEnd)
        invariant forall k :: k in todo ==> k !in keys
        invariant forall i, j :: 0 <= i < j < |keys| ==> keys[i] != keys[j]
        decreases todo
      {
        var k :| k in todo;
        todo, keys := todo - {k}, keys + [k];
      }
    }

    method DeleteRange(key: Key, rangeEnd: Key)
      requires Valid()
      modifies this
      ensures Valid() && kvs == map k | k in old(kvs) && !InRange(k, key, rangeEnd) :: old(kvs)[k]
    {
      kvs := map k | k in kvs && !InRange(k, key, rangeEnd) :: kvs[k];
    }
  }

  predicate Expired<V>(value: Value<V>, now: int) { value.e.Some? && now > value.e.value }

  class KeyvEtcd<V> {
    const client: EtcdServer<V>
    const namespace: string
    const keyPrefixSeparator: string

    constructor (client: EtcdServer<V>, namespace: string, keyPrefixSeparator: string)
      ensures this.client == client && this.namespace == namespace && this.keyPrefixSeparator == keyPrefixSeparator
    {
      this.client := client;
      this.namespace := namespace;
      this.keyPrefixSeparator := keyPrefixSeparator;
    }

    function Prefix(): string { if namespace == "" then "" else namespace + keyPrefixSeparator }

    function FormatKey(key: string): string {
      if namespace == "" then key
      else if namespace + keyPrefixSeparator <= key then key
      else namespace + keyPrefixSeparator + key
    }

    /** The name of a key, spelled out: with the namespace and the separator in front, once. */
    ghost function NameOf(key: string): (name: string)
      ensures Prefix() <= name
    {
      if namespace != "" && !(namespace + keyPrefixSeparator <= key) then namespace + keyPrefixSeparator + key else key
    }

    /** The value is stored under the key's name, with its deadline to the millisecond. */
    method Set(key: string, value: V, expires: Option<int>)
      requires client.Valid() && FormatKey(key) != ""
      modifies client
      ensures client.Valid() && client.kvs == old(client.kvs)[Encode(NameOf(key)) := Value(value, expires)]
    {
      assert FormatKey(key) == NameOf(key) && |Encode(FormatKey(key))| > 0;
      client.kvs := client.kvs[Encode(FormatKey(key)) := Value(value, expires)];
    }

    /** A value is found up to and at its deadline; after it, it is removed. */
    method Get(key: string, now: int) returns (value: Option<V>)
      requires client.Valid()
      modifies client
      ensures client.Valid()
      ensures var k := Encode(NameOf(key));
              && value == (if k in old(client.kvs) && (old(client.kvs)[k].e == None || now <= old(client.kvs)[k].e.value)
                           then Some(old(client.kvs)[k].v) else None)
              && client.kvs == if value.None? then old(client.kvs) - {k} else old(client.kvs)
    {
      assert FormatKey(key) == NameOf(key);
      var k := Encode(FormatKey(key));
      value := None;
      if k in client.kvs {
        if Expired(client.kvs[k], now) {
          client.kvs := client.kvs - {k};
        } else {
          value := Some(client.kvs[k].v);
        }
      }
    }

    lemma Named(key: string)
      ensures Prefix() <= NameOf(key) && NameOf(key) == Prefix() + NameOf(key)[|Prefix()|..]
      ensures !(namespace != "" && namespace + keyPrefixSeparator <= key) ==> NameOf(key)[|Prefix()|..] == key
    {}

    /** What was written is found up to and at its deadline, by `get` and, under its name without the namespace,
        by the iterator, until it is cleared. */
    method WriteThenRead(key: string, value: V, expires: Option<int>, now: int)
      returns (found: Option<V>, pairs: seq<(string, V)>, cleared: Option<V>)
      requires client.Valid() && FormatKey(key) != "" && forall k :: k in client.kvs && Under(k) ==> Decode(k).Some?
      modifies client
      ensures found == (if expires == None || now <= expires.value then Some(value) else None)
      ensures found.Some? ==> exists i :: 0 <= i < |pairs| && pairs[i] == (NameOf(key)[|Prefix()|..], value)
      ensures found == None ==> forall i :: 0 <= i < |pairs| ==> pairs[i].0 != NameOf(key)[|Prefix()|..]
      ensures cleared == None
    {
      hide Encode, Decode, NameOf, Less, InRange;
      ghost var name := NameOf(key)[|Prefix()|..];
      Named(key);
      EncodePrefix(Prefix(), NameOf(key));
      DecodeEncode(NameOf(key));
      Set(key, value, expires);
      found := Get(key, now);
      ghost var kvs := client.kvs;
      pairs := Iterate(now);
      if found.Some? {
        assert IsLive(kvs, name, now, value);
        ghost var i :| 0 <= i < |pairs| && pairs[i].0 == name;
        assert IsLive(kvs, pairs[i].0, now, pairs[i].1);
        assert pairs[i] == (name, value);
      } else {
        forall i | 0 <= i < |pairs| ensures pairs[i].0 != name { assert IsLive(kvs, pairs[i].0, now, pairs[i].1); }
      }
      Clear();
      cleared := Get(key, now);
    }

    /** Exactly the keys of the namespace go, all keys without one. */
    method Clear()
      requires client.Valid()
      modifies client
      ensures client.Valid()
      ensures forall s: string :: Encode(s) in client.kvs <==> Encode(s) in old(client.kvs) && !(Prefix() <= s)
      ensures forall k :: k in client.kvs <==> k in old(client.kvs) && !(Encode(Prefix()) <= k)
      ensures forall k :: k in client.kvs ==> client.kvs[k] == old(client.kvs)[k]
    {
      forall s: string ensures Encode(Prefix()) <= Encode(s) <==> Prefix() <= s { EncodePrefix(Prefix(), s); }
      if namespace != "" {
        assert |Prefix()| > 0 && |Encode(Prefix())| > 0;
        var end := PrefixEnd(Encode(Prefix()));
        assert RangeStart(Encode(Prefix())) == Encode(Prefix());
        client.DeleteRange(Encode(Prefix()), end);
        assert forall k :: k in client.kvs <==> k in old(client.kvs) && !(Encode(Prefix()) <= k);
      } else {
        forall k: Key | k != [] ensures InRange(k, [0], [0]) { LeastKey(k); }
        client.DeleteRange([0], [0]);
        assert Encode(Prefix()) == [];
      }
    }

    ghost predicate Under(k: Key) { Encode(Prefix()) <= k }

    /** An uninterrupted iteration yields exactly the live string keys of the namespace, without the prefix,
        each once, and removes the namespace's expired keys and no others. */
    method Iterate(now: int) returns (pairs: seq<(string, V)>)
      requires client.Valid() && forall k :: k in client.kvs && Under(k) ==> Decode(k).Some?
      modifies client
      ensures client.Valid()
      ensures client.kvs == map k | k in old(client.kvs) && !(Under(k) && Expired(old(client.kvs)[k], now)) :: old(client.kvs)[k]
      ensures forall i, j :: 0 <= i < j < |pairs| ==> pairs[i].0 != pairs[j].0
      ensures forall i :: 0 <= i < |pairs| ==> IsLive(old(client.kvs), pairs[i].0, now, pairs[i].1)
      ensures forall s, v :: IsLive(old(client.kvs), s, now, v) ==> exists i :: 0 <= i < |pairs| && pairs[i].0 == s
    {
      var keys := NamespaceKeys();
      PairsAre(client.kvs, keys, now);
      ReapedAll(client.kvs, keys, now);
      hide Encode, Decode, IsLive, Pairs;
      pairs := IterateKeys(keys, now);
    }

    method IterateKeys(keys: seq<Key>, now: int) returns (pairs: seq<(string, V)>)
      requires Listed(client.kvs, keys) && forall i, j :: 0 <= i < j < |keys| ==> keys[i] != keys[j]
      modifies client
      ensures client.kvs == Reap(old(client.kvs), keys, now) && pairs == Pairs(old(client.kvs), keys, now)
    {
      ghost var before := client.kvs;
      NothingYet(before, keys, now);
      pairs := [];
      hide Encode, Decode, Reap, Pairs;
      for i := 0 to |keys|
        invariant client.kvs == Reap(before, keys[..i], now)
        invariant Listed(before, keys[..i]) && pairs == Pairs(before, keys[..i], now)
      {
        OneMore(before, keys, i, now);
        var key := Decode(keys[i]).value;
        var raw := client.kvs[keys[i]];
        if Expired(raw, now) {
          client.kvs := client.kvs - {keys[i]};
        } else {
          pairs := pairs + [(key[|Prefix()|..], raw.v)];
        }
      }
    }

    lemma ReapedAll(kvs: map<Key, Value<V>>, keys: seq<Key>, now: int)
      requires forall k :: k in keys <==> k in kvs && Under(k)
      ensures Reap(kvs, keys, now) == map k | k in kvs && !(Under(k) && Expired(kvs[k], now)) :: kvs[k]
    {}

    /** `getAll().prefix(...).keys()`. */
    method NamespaceKeys() returns (keys: seq<Key>)
      requires client.Valid()
      ensures forall k :: k in keys <==> k in client.kvs && Under(k)
      ensures forall i, j :: 0 <= i < j < |keys| ==> keys[i] != keys[j]
    {
      var rangeEnd := PrefixEnd(Encode(Prefix()));
      keys := client.Range(RangeStart(Encode(Prefix())), rangeEnd);
    }

    function Reap(kvs: map<Key, Value<V>>, keys: seq<Key>, now: int): map<Key, Value<V>> {
      map k | k in kvs && !(k in keys && Expired(kvs[k], now)) :: kvs[k]
    }

    predicate Listed(kvs: map<Key, Value<V>>, keys: seq<Key>) {
      forall k :: k in keys ==> k in kvs && Encode(Prefix()) <= k && Decode(k).Some? && Prefix() <= Decode(k).value
    }

    /** The pairs of the keys whose values have not expired. */
    function Pairs(kvs: map<Key, Value<V>>, keys: seq<Key>, now: int): seq<(string, V)>
      requires Listed(kvs, keys)
    {
      if keys == [] then []
      else
        var k := keys[|keys| - 1];
        assert forall q :: q in keys[..|keys| - 1] ==> q in keys;
        Pairs(kvs, keys[..|keys| - 1], now)
        + if Expired(kvs[k], now) then [] else [(Decode(k).value[|Prefix()|..], kvs[k].v)]
    }

    lemma OneMore(kvs: map<Key, Value<V>>, keys: seq<Key>, i: nat, now: int)
      requires Listed(kvs, keys) && i < |keys| && forall h, j :: 0 <= h < j < |keys| ==> keys[h] != keys[j]
      ensures var k, reaped := keys[i], Reap(kvs, keys[..i], now);
              && k in reaped && reaped[k] == kvs[k] && Decode(k).Some? && Prefix() <= Decode(k).value
              && Listed(kvs, keys[..i]) && Listed(kvs, keys[..i + 1])
              && (if Expired(kvs[k], now)
                  then Reap(kvs, keys[..i + 1], now) == reaped - {k} && Pairs(kvs, keys[..i + 1], now) == Pairs(kvs, keys[..i], now)
                  else Reap(kvs, keys[..i + 1], now) == reaped
                       && Pairs(kvs, keys[..i + 1], now) == Pairs(kvs, keys[..i], now) + [(Decode(k).value[|Prefix()|..], kvs[k].v)])
    {
      hide Encode, Decode;
      assert keys[..i + 1][..i] == keys[..i] && keys[..i + 1] == keys[..i] + [keys[i]];
      assert keys[i] in keys;
    }

    lemma NothingYet(kvs: map<Key, Value<V>>, keys: seq<Key>, now: int)
      ensures Reap(kvs, [], now) == kvs && Listed(kvs, []) && Pairs(kvs, [], now) == [] && keys[..0] == [] && keys[..|keys|] == keys
    {}

    lemma {:induction false} PairFrom(kvs: map<Key, Value<V>>, keys: seq<Key>, now: int, h: nat) returns (j: nat)
      requires Listed(kvs, keys) && h < |Pairs(kvs, keys, now)|
      ensures j < |keys| && !Expired(kvs[keys[j]], now)
      ensures Pairs(kvs, keys, now)[h] == (Decode(keys[j]).value[|Prefix()|..], kvs[keys[j]].v)
    {
      var front := keys[..|keys| - 1];
      assert forall q :: q in front ==> q in keys;
      if h < |Pairs(kvs, front, now)| { j := PairFrom(kvs, front, now, h); } else { j := |keys| - 1; }
    }

    lemma {:induction false} PairOf(kvs: map<Key, Value<V>>, keys: seq<Key>, now: int, j: nat) returns (h: nat)
      requires Listed(kvs, keys) && j < |keys| && !Expired(kvs[keys[j]], now)
      ensures h < |Pairs(kvs, keys, now)|
      ensures Pairs(kvs, keys, now)[h] == (Decode(keys[j]).value[|Prefix()|..], kvs[keys[j]].v)
    {
      var front := keys[..|keys| - 1];
      assert forall q :: q in front ==> q in keys;
      if j < |front| { h := PairOf(kvs, front, now, j); } else { h := |Pairs(kvs, front, now)|; }
    }

    lemma {:induction false} PairsDistinct(kvs: map<Key, Value<V>>, keys: seq<Key>, now: int)
      requires Listed(kvs, keys) && forall i, j :: 0 <= i < j < |keys| ==> keys[i] != keys[j]
      ensures forall i, j :: 0 <= i < j < |Pairs(kvs, keys, now)| ==> Pairs(kvs, keys, now)[i].0 != Pairs(kvs, keys, now)[j].0
    {
      if keys != [] {
        var front, last, pairs := keys[..|keys| - 1], keys[|keys| - 1], Pairs(kvs, keys, now);
        assert forall q :: q in front ==> q in keys;
        PairsDistinct(kvs, front, now);
        forall h | 0 <= h < |Pairs(kvs, front, now)| ensures pairs[h].0 != Decode(last).value[|Prefix()|..] {
          var j := PairFrom(kvs, front, now, h);
          DifferentKeys(front[j], last);
        }
      }
    }

    lemma DifferentKeys(a: Key, b: Key)
      requires Decode(a).Some? && Decode(b).Some? && Prefix() <= Decode(a).value && Prefix() <= Decode(b).value && a != b
      ensures Decode(a).value[|Prefix()|..] != Decode(b).value[|Prefix()|..]
    {
      hide Encode, Decode;
      DecodeIs(a);
      DecodeIs(b);
      var s, t := Decode(a).value, Decode(b).value;
      assert s == Prefix() + s[|Prefix()|..] && t == Prefix() + t[|Prefix()|..];
    }

    lemma PairsAre(kvs: map<Key, Value<V>>, keys: seq<Key>, now: int)
      requires forall k :: k in keys <==> k in kvs && Under(k)
      requires forall k :: k in kvs && Under(k) ==> Decode(k).Some?
      requires forall i, j :: 0 <= i < j < |keys| ==> keys[i] != keys[j]
      ensures Listed(kvs, keys)
      ensures var pairs := Pairs(kvs, keys, now);
              && (forall i, j :: 0 <= i < j < |pairs| ==> pairs[i].0 != pairs[j].0)
              && (forall i :: 0 <= i < |pairs| ==> IsLive(kvs, pairs[i].0, now, pairs[i].1))
              && (forall s, v :: IsLive(kvs, s, now, v) ==> exists i :: 0 <= i < |pairs| && pairs[i].0 == s)
    {
      hide Encode, Decode, Pairs, IsLive, Expired;
      forall k | k in keys ensures Prefix() <= Decode(k).value { KeyUnder(k); }
      PairsDistinct(kvs, keys, now);
      PairsLive(kvs, keys, now);
      forall s, v | IsLive(kvs, s, now, v) ensures exists i :: 0 <= i < |Pairs(kvs, keys, now)| && Pairs(kvs, keys, now)[i].0 == s {
        var h := PairFor(kvs, keys, s, now, v);
      }
    }

    lemma PairsLive(kvs: map<Key, Value<V>>, keys: seq<Key>, now: int)
      requires Listed(kvs, keys) && forall k :: k in keys ==> Under(k)
      ensures forall i :: 0 <= i < |Pairs(kvs, keys, now)| ==>
                IsLive(kvs, Pairs(kvs, keys, now)[i].0, now, Pairs(kvs, keys, now)[i].1)
    {
      hide Encode, Decode, Pairs, Expired;
      var pairs := Pairs(kvs, keys, now);
      forall i | 0 <= i < |pairs| ensures IsLive(kvs, pairs[i].0, now, pairs[i].1) {
        var j := PairFrom(kvs, keys, now, i);
        KeyUnder(keys[j]);
        assert Decode(keys[j]).value == Prefix() + pairs[i].0;
      }
    }

    lemma PairFor(kvs: map<Key, Value<V>>, keys: seq<Key>, s: string, now: int, v: V) returns (h: nat)
      requires Listed(kvs, keys) && (forall k :: k in kvs && Under(k) ==> k in keys) && IsLive(kvs, s, now, v)
      ensures h < |Pairs(kvs, keys, now)| && Pairs(kvs, keys, now)[h].0 == s
    {
      hide Encode, Decode, Pairs, Expired;
      var k := Encode(Prefix() + s);
      EncodePrefix(Prefix(), Prefix() + s);
      DecodeEncode(Prefix() + s);
      assert Under(k);
      var j :| 0 <= j < |keys| && keys[j] == k;
      h := PairOf(kvs, keys, now, j);
      assert (Prefix() + s)[|Prefix()|..] == s;
    }

    ghost predicate IsLive(kvs: map<Key, Value<V>>, s: string, now: int, v: V) {
      var k := Encode(Prefix() + s);
      k in kvs && !Expired(kvs[k], now) && kvs[k].v == v
    }

    lemma KeyUnder(k: Key)
      requires Under(k) && Decode(k).Some?
      ensures Prefix() <= Decode(k).value && Encode(Decode(k).value) == k
    {
      DecodeIs(k);
      EncodePrefix(Prefix(), Decode(k).value);
    }
  }
}
