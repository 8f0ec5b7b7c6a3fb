/**
Keyv's core: values are wrapped with their deadline, encoded by an optional chain of codecs and stored in an
adapter; reads decode what the adapter returns and check the deadline again, so that an adapter which
removes expired entries late, but never early, is as good as one that removes them in time.
*/
module KeyvCore {
  import opened Wrappers

  // ----- Deadlines -----

  /** A ttl argument: `undefined`, a finite number, or NaN or an infinity. */
  datatype Ttl = Absent | Finite(ms: int) | NonFinite

  function ResolveTtl(ttl: Ttl, defaultTtl: Ttl): Ttl {
    var resolved := if ttl == Absent then defaultTtl else ttl;
    match resolved
    case Finite(ms) => if ms <= 0 then Absent else resolved
    case _ => Absent
  }

  function CalculateExpires(ttl: Ttl, now: int): Option<int> {
    match ttl
    case Finite(ms) => if ms <= 0 then None else Some(now + ms)
    case _ => None
  }

  /** The ttl left; `None` also when the deadline has passed. */
  function TtlFromExpires(expires: Option<int>, now: int): Option<int> {
    match expires
    case Some(e) => if e - now > 0 then Some(e - now) else None
    case None => None
  }

  /** A resolved ttl is absent exactly when the value is to live forever, and otherwise gives back itself
      from the deadline it is turned into. */
  lemma TtlRoundTrip(ttl: Ttl, defaultTtl: Ttl, now: int)
    ensures var r := ResolveTtl(ttl, defaultTtl);
            && (r == Absent <==> CalculateExpires(r, now) == None)
            && (r.Finite? ==> r.ms > 0 && TtlFromExpires(CalculateExpires(r, now), now) == Some(r.ms))
            && ResolveTtl(r, Absent) == r
    ensures ttl.Finite? ==> ResolveTtl(ttl, defaultTtl) == if ttl.ms > 0 then ttl else Absent
    ensures ttl.NonFinite? ==> ResolveTtl(ttl, defaultTtl) == Absent
    ensures ttl.Absent? ==> ResolveTtl(ttl, defaultTtl) == ResolveTtl(defaultTtl, Absent)
    ensures forall ms, later :: ms > 0 ==>
              TtlFromExpires(CalculateExpires(Finite(ms), now), later) == if later < now + ms then Some(now + ms - later) else None
  {}

  // ----- Encoding -----

  datatype Envelope<V> = Envelope(value: V, expires: Option<int>)

  /** What an adapter stores: an encoded text, or the envelope itself when no serialization is configured. */
  datatype Raw<V> = Text(s: string) | Plain(e: Envelope<V>)

  datatype Codec = Codec(forth: string -> string, back: string -> string)

  /** `parse` is `None` where the serializer throws. */
  datatype Serializer<!V> = Serializer(stringify: Envelope<V> -> string, parse: string -> Option<Envelope<V>>)

  datatype Pipeline<!V> = Pipeline(serialization: Option<Serializer<V>>, compression: Option<Codec>, encryption: Option<Codec>)

  ghost predicate CodecInverts(c: Option<Codec>) {
    c.Some? ==> forall s :: c.value.back(c.value.forth(s)) == s
  }

  ghost predicate Inverts<V(!new)>(p: Pipeline<V>) {
    && CodecInverts(p.compression) && CodecInverts(p.encryption)
    && (p.serialization.Some? ==>
          forall e :: p.serialization.value.parse(p.serialization.value.stringify(e)) == Some(e))
  }

  /** Serialized first, then compressed, then encrypted. */
  method Encode<V>(p: Pipeline<V>, data: Envelope<V>) returns (r: Raw<V>)
    ensures r == Encoded(p, data)
    ensures p.serialization.None? ==> r == Plain(data)
    ensures p.serialization.Some? && p.compression.Some? && p.encryption.Some? ==>
              r == Text(p.encryption.value.forth(p.compression.value.forth(p.serialization.value.stringify(data))))
    ensures p.serialization.Some? && p.compression.None? && p.encryption.None? ==>
              r == Text(p.serialization.value.stringify(data))
  {
    if p.serialization.None? { return Plain(data); }
    var result := p.serialization.value.stringify(data);
    if p.compression.Some? { result := p.compression.value.forth(result); }
    if p.encryption.Some? { result := p.encryption.value.forth(result); }
    r := Text(result);
  }

  function Forth(c: Option<Codec>, s: string): string { if c.Some? then c.value.forth(s) else s }

  function Encoded<V>(p: Pipeline<V>, data: Envelope<V>): Raw<V> {
    match p.serialization
    case None => Plain(data)
    case Some(s) => Text(Forth(p.encryption, Forth(p.compression, s.stringify(data))))
  }

  method Decode<V(!new)>(p: Pipeline<V>, data: Raw<V>) returns (r: Option<Envelope<V>>)
    ensures forall e :: Inverts(p) && data == Encoded(p, e) ==> r == Some(e)
    ensures p.serialization.None? && data.Text? ==> r == None
  {
    if p.serialization.None? {
      return match data case Plain(e) => Some(e) case Text(_) => None;
    }
    match data {
      case Plain(e) => r := Some(e);
      case Text(s) =>
        var result := s;
        if p.encryption.Some? { result := p.encryption.value.back(result); }
        if p.compression.Some? { result := p.compression.value.back(result); }
        r := p.serialization.value.parse(result);
    }
  }

  predicate Expired<V>(e: Envelope<V>, now: int) { e.expires.Some? && now > e.expires.value }

  // ----- The adapter -----

  datatype Cell<V> = Cell(raw: Raw<V>, expires: Option<int>)

  /** An adapter that may drop an entry once its deadline is reached, at any time or never. */
  class Store<V> {
    var cells: map<string, Cell<V>>

    constructor ()
      ensures cells == map[]
    {
      cells := map[];
    }

    /** What reaping may do by `now`. */
    ghost predicate Reaped(before: map<string, Cell<V>>, now: int)
      reads this
    {
      && (forall k :: k in cells ==> k in before && cells[k] == before[k])
      && (forall k :: k in before && k !in cells ==> before[k].expires.Some? && before[k].expires.value <= now)
    }

    method Get(key: string, now: int) returns (r: Option<Raw<V>>)
      modifies this
      ensures Reaped(old(cells), now)
      ensures r == if key in cells then Some(cells[key].raw) else None
    {
      if key in cells && cells[key].expires.Some? && cells[key].expires.value <= now {
        var reap: bool := *;
        if reap { cells := cells - {key}; }
      }
      r := if key in cells then Some(cells[key].raw) else None;
    }

    method Set(key: string, raw: Raw<V>, expires: Option<int>, accepted: bool) returns (ok: bool)
      modifies this
      ensures ok == accepted && cells == if accepted then old(cells)[key := Cell(raw, expires)] else old(cells)
    {
      if accepted { cells := cells[key := Cell(raw, expires)]; }
      ok := accepted;
    }

    method DeleteMany(keys: seq<string>) returns (results: seq<bool>)
      modifies this
      ensures cells == old(cells) - (set k | k in keys)
      ensures |results| == |keys| && forall i :: 0 <= i < |keys| ==> results[i] == (keys[i] in old(cells))
    {
      var before := cells;
      results := seq(|keys|, i requires 0 <= i < |keys| => keys[i] in before);
      cells := cells - (set k | k in keys);
    }
  }

  // ----- Keyv -----

  /** What a read at `now` may show: before the deadline the last write, after it nothing, and at the very
      millisecond either. */
  ghost predicate Shows<V>(written: map<string, Envelope<V>>, key: string, now: int, r: Option<Envelope<V>>) {
    if key in written && !Expired(written[key], now)
    then r == Some(written[key]) || (r == None && written[key].expires == Some(now))
    else r == None
  }

  function ValueOf<V>(row: Option<Envelope<V>>): Option<V> { if row.Some? then Some(row.value.value) else None }

  /** The value of what a read may show. */
  ghost predicate ShowsValue<V>(written: map<string, Envelope<V>>, key: string, now: int, value: Option<V>) {
    if key in written && !Expired(written[key], now)
    then value == Some(written[key].value) || (value == None && written[key].expires == Some(now))
    else value == None
  }

  /** Whether what a read may show is there. */
  ghost predicate ShowsPresence<V>(written: map<string, Envelope<V>>, key: string, now: int, present: bool) {
    if key in written && !Expired(written[key], now)
    then present || written[key].expires == Some(now)
    else !present
  }

  class Keyv<V(!new)> {
    const store: Store<V>
    const pipeline: Pipeline<V>
    const ttl: Ttl
    /** The last value written to each key, and the time of the last operation. */
    ghost var written: map<string, Envelope<V>>
    ghost var clock: int

    constructor (store: Store<V>, pipeline: Pipeline<V>, ttl: Ttl)
      requires Inverts(pipeline) && store.cells == map[]
      ensures Valid() && written == map[] && this.store == store
    {
      this.store := store;
      this.pipeline := pipeline;
      this.ttl := ttl;
      written := map[];
    }

    /** Every entry still stored is the last write; one that is gone has reached its deadline. */
    ghost predicate Valid()
      reads this, store
    {
      && Inverts(pipeline) && "" !in written
      && (forall k :: k in store.cells ==>
            k in written && store.cells[k] == Cell(Encoded(pipeline, written[k]), written[k].expires))
      && (forall k :: k in written && k !in store.cells ==>
            written[k].expires.Some? && written[k].expires.value <= clock)
    }

    method Set(key: string, value: V, ttl: Ttl, now: int, accepted: bool) returns (result: bool)
      requires Valid() && now >= clock
      modifies this, store
      ensures Valid() && clock == now
      ensures result <==> accepted && key != ""
      ensures written == if result then old(written)[key := Envelope(value, CalculateExpires(ResolveTtl(ttl, this.ttl), now))]
                         else old(written)
      // the deadline: the ttl given, else the default one; none for a ttl that is not positive or not finite
      ensures result ==> key in written && written[key].value == value
      ensures result && ttl.Finite? ==> written[key].expires == if ttl.ms > 0 then Some(now + ttl.ms) else None
      ensures result && ttl.NonFinite? ==> written[key].expires == None
      ensures result && ttl.Absent? ==>
                written[key].expires == if this.ttl.Finite? && this.ttl.ms > 0 then Some(now + this.ttl.ms) else None
      ensures forall k :: k != key ==> Lookup(written, k) == Lookup(old(written), k)
    {
      clock := now;
      if key == "" { return false; }
      var expires := CalculateExpires(ResolveTtl(ttl, this.ttl), now);
      var formattedValue := Envelope(value, expires);
      var encodedValue := Encode(pipeline, formattedValue);
      result := store.Set(key, encodedValue, expires, accepted);
      if result { written := written[key := formattedValue]; }
    }

    method DeleteMany(keys: seq<string>, now: int) returns (results: seq<bool>)
      requires Valid() && now >= clock
      modifies this, store
      ensures Valid() && clock == now && written == old(written) - (set k | k in keys)
      ensures |results| == |keys|
      ensures forall i :: 0 <= i < |keys| ==>
                (results[i] ==> keys[i] in old(written))
                && (keys[i] in old(written) && (old(written)[keys[i]].expires.Some? ==> now < old(written)[keys[i]].expires.value)
                    ==> results[i])
    {
      clock := now;
      results := store.DeleteMany(keys);
      written := written - (set k | k in keys);
    }

    /** `decodeWithExpire` on what was just read: the rows decoded, with those past their deadline made
        undefined and their keys deleted. */
    method DecodeWithExpire(keys: seq<string>, rawData: seq<Option<Raw<V>>>, now: int) returns (results: seq<Option<Envelope<V>>>)
      requires Valid() && now == clock && |keys| == |rawData|
      requires forall i :: 0 <= i < |keys| ==> rawData[i].Some? ==>
                 keys[i] in written && rawData[i].value == Encoded(pipeline, written[keys[i]])
      requires forall i :: 0 <= i < |keys| ==> rawData[i].None? ==>
                 keys[i] in written ==> written[keys[i]].expires.Some? && written[keys[i]].expires.value <= now
      modifies store
      ensures Valid()
      ensures |results| == |keys| && forall i :: 0 <= i < |keys| ==> Shows(written, keys[i], now, results[i])
    {
      var data := new Option<Envelope<V>>[|keys|](_ => None);
      for i := 0 to |rawData|
        invariant Valid() && now == clock && written == old(written) && store.cells == old(store.cells)
        invariant forall j :: 0 <= j < i ==>
          data[j] == if rawData[j].Some? then Some(written[keys[j]]) else None
      {
        if rawData[i].None? {
          data[i] := None;
        } else {
          var deserialized := Decode(pipeline, rawData[i].value);
          data[i] := deserialized;
        }
      }
      ghost var decoded := data[..];
      DeleteExpiredKeys(keys, data, now);
      results := data[..];
    }

    /** Rows past their deadline are made undefined, and their keys deleted. */
    method DeleteExpiredKeys(keys: seq<string>, data: array<Option<Envelope<V>>>, now: int)
      requires Valid() && now == clock && data.Length == |keys|
      requires forall i :: 0 <= i < |keys| && data[i].Some? ==> keys[i] in written && data[i].value == written[keys[i]]
      modifies store, data
      ensures Valid()
      ensures forall i :: 0 <= i < |keys| ==>
                data[i] == if old(data[i]).Some? && Expired(old(data[i]).value, now) then None else old(data[i])
    {
      var expiredKeys: seq<string> := [];
      for i := 0 to data.Length
        invariant Valid() && store.cells == old(store.cells)
        invariant forall j :: 0 <= j < i ==>
          data[j] == if old(data[j]).Some? && Expired(old(data[j]).value, now) then None else old(data[j])
        invariant forall j :: i <= j < data.Length ==> data[j] == old(data[j])
        invariant forall k :: k in expiredKeys ==> k in written && Expired(written[k], now)
      {
        if data[i].Some? && Expired(data[i].value, now) {
          expiredKeys := expiredKeys + [keys[i]];
          data[i] := None;
        }
      }
      if |expiredKeys| > 0 {
        var _ := store.DeleteMany(expiredKeys);
      }
    }

    /** `_store.getMany`, or single `get`s. */
    method StoreGetMany(keys: seq<string>, now: int) returns (rawData: seq<Option<Raw<V>>>)
      requires Valid() && now == clock
      modifies store
      ensures Valid()
      ensures |rawData| == |keys|
      ensures forall i :: 0 <= i < |keys| ==> rawData[i].Some? ==>
                 keys[i] in written && rawData[i].value == Encoded(pipeline, written[keys[i]])
      ensures forall i :: 0 <= i < |keys| ==> rawData[i].None? ==>
                 keys[i] in written ==> written[keys[i]].expires.Some? && written[keys[i]].expires.value <= now
    {
      rawData := [];
      for i := 0 to |keys|
        invariant Valid() && |rawData| == i
        invariant forall j :: 0 <= j < i ==> rawData[j].Some? ==>
          keys[j] in written && rawData[j].value == Encoded(pipeline, written[keys[j]])
        invariant forall j :: 0 <= j < i ==> rawData[j].None? ==>
          keys[j] in written ==> written[keys[j]].expires.Some? && written[keys[j]].expires.value <= now
      {
        var raw := store.Get(keys[i], now);
        rawData := rawData + [raw];
      }
    }

    method GetManyRaw(keys: seq<string>, now: int) returns (results: seq<Option<Envelope<V>>>)
      requires Valid() && now >= clock
      modifies this`clock, store
      ensures Valid() && clock == now
      ensures |results| == |keys| && forall i :: 0 <= i < |keys| ==> Shows(written, keys[i], now, results[i])
    {
      clock := now;
      if |keys| == 0 { return []; }
      var rawData := StoreGetMany(keys, now);
      results := DecodeWithExpire(keys, rawData, now);
    }

    method GetMany(keys: seq<string>, now: int) returns (values: seq<Option<V>>)
      requires Valid() && now >= clock
      modifies this`clock, store
      ensures Valid() && clock == now
      ensures |values| == |keys| && forall i :: 0 <= i < |keys| ==> ShowsValue(written, keys[i], now, values[i])
    {
      clock := now;
      var rawData := StoreGetMany(keys, now);
      var deserialized := DecodeWithExpire(keys, rawData, now);
      values := seq(|keys|, i requires 0 <= i < |keys| => ValueOf(deserialized[i]));
    }

    method HasMany(keys: seq<string>, now: int) returns (results: seq<bool>)
      requires Valid() && now >= clock
      modifies this`clock, store
      ensures Valid() && clock == now
      ensures |results| == |keys| && forall i :: 0 <= i < |keys| ==> ShowsPresence(written, keys[i], now, results[i])
    {
      clock := now;
      var rawData := StoreGetMany(keys, now);
      var deserialized := DecodeWithExpire(keys, rawData, now);
      results := seq(|keys|, i requires 0 <= i < |keys| => deserialized[i].Some?);
    }

    method GetRaw(key: string, now: int) returns (data: Option<Envelope<V>>)
      requires Valid() && now >= clock
      modifies this`clock, store
      ensures Valid() && clock == now
      ensures if key == "" then data == None else Shows(written, key, now, data)
    {
      clock := now;
      if key == "" { return None; }
      var rawData := StoreGetMany([key], now);
      var rows := DecodeWithExpire([key], rawData, now);
      data := rows[0];
    }

    method Get(key: string, now: int) returns (value: Option<V>)
      requires Valid() && now >= clock
      modifies this`clock, store
      ensures Valid() && clock == now
      ensures if key == "" then value == None else ShowsValue(written, key, now, value)
    {
      clock := now;
      if key == "" { return None; }
      var rawData := StoreGetMany([key], now);
      var rows := DecodeWithExpire([key], rawData, now);
      value := ValueOf(rows[0]);
    }

    method Has(key: string, now: int) returns (result: bool)
      requires Valid() && now >= clock
      modifies this`clock, store
      ensures Valid() && clock == now
      ensures if key == "" then !result else ShowsPresence(written, key, now, result)
    {
      clock := now;
      result := false;
      if key == "" { return false; }
      var rawData := StoreGetMany([key], now);
      if rawData[0].Some? {
        var rows := DecodeWithExpire([key], rawData, now);
        result := rows[0].Some?;
      }
    }
  }
  /** Reading every way at one time, away from the very millisecond of a deadline: `has` is whether `getRaw`
      finds something and `get` its value, each of the many-forms is that of the single one, and in between
      nothing that can be read changes. */
  method FormsAgree<V(!new)>(keyv: Keyv<V>, keys: seq<string>, i: nat, now: int)
    returns (raws: seq<Option<Envelope<V>>>, values: seq<Option<V>>, presences: seq<bool>,
             raw: Option<Envelope<V>>, value: Option<V>, present: bool)
    requires keyv.Valid() && now >= keyv.clock && i < |keys|
    modifies keyv`clock, keyv.store
    ensures keyv.Valid() && |raws| == |values| == |presences| == |keys|
    ensures forall j :: 0 <= j < |keys| && (keys[j] in keyv.written ==> keyv.written[keys[j]].expires != Some(now)) ==>
              presences[j] == raws[j].Some? && values[j] == ValueOf(raws[j])
    ensures (keys[i] in keyv.written ==> keyv.written[keys[i]].expires != Some(now)) ==>
              raw == raws[i] && value == values[i] && present == presences[i]
  {
    present := keyv.Has(keys[i], now);
    raws := keyv.GetManyRaw(keys, now);
    value := keyv.Get(keys[i], now);
    presences := keyv.HasMany(keys, now);
    raw := keyv.GetRaw(keys[i], now);
    values := keyv.GetMany(keys, now);
  }

  /** A value written with a ttl in milliseconds, or under the default one, is read in every way until that time
      has passed and not after it; without a ttl it is read for ever. */
  method WriteThenRead<V(!new)>(keyv: Keyv<V>, key: string, value: V, ttl: Ttl, at: int, now: int)
    returns (found: Option<V>, many: seq<Option<V>>, raw: Option<Envelope<V>>, has: bool)
    requires keyv.Valid() && keyv.clock <= at <= now && key != ""
    modifies keyv, keyv.store
    ensures var ms := if ttl.Absent? then keyv.ttl else ttl;
            if ms.Finite? && ms.ms > 0
            then (now < at + ms.ms ==> found == Some(value) && has && raw == Some(Envelope(value, Some(at + ms.ms))))
                 && (now > at + ms.ms ==> found == None && !has && raw == None)
            else found == Some(value) && has && raw == Some(Envelope(value, None))
    ensures var ms := if ttl.Absent? then keyv.ttl else ttl;
            !(ms.Finite? && ms.ms > 0 && now == at + ms.ms) ==> many == [found]
  {
    var _ := keyv.Set(key, value, ttl, at, true);
    hide Inverts;
    found := keyv.Get(key, now);
    raw := keyv.GetRaw(key, now);
    has := keyv.Has(key, now);
    many := keyv.GetMany([key], now);
    assert [key][0] == key;
  }
}
