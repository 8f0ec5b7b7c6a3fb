/**
The JSON serializer: `prepare` turns byte arrays and bigints into tagged strings and escapes strings that
begin with a colon, `JSON.stringify` drops what JSON has no text for, and the reviver of `parse` undoes the
tags.  A JSON text is represented by the tree it denotes.
*/
module JsonSerializer {
  import opened Wrappers
  import Base64
  import Decimal

  /** A JavaScript value.  An object lists its own enumerable fields in `Object.keys` order. */
  datatype Value =
    | Undefined                               // also a function or a symbol
    | Null
    | Bool(b: bool)
    | Num(n: real)
    | NonFinite                               // NaN or an infinity
    | Str(s: string)
    | BigInt(i: int)
    | Bytes(bytes: seq<Base64.byte>)
    | Arr(items: seq<Value>)
    | Obj(fields: seq<Field>)
    | WithToJSON(result: Value)               // an object whose `toJSON()` returns `result`

  datatype Field = Field(key: string, value: Value)

  datatype Json =
    | JNull
    | JBool(b: bool)
    | JNum(n: real)
    | JStr(s: string)
    | JArr(items: seq<Json>)
    | JObj(fields: seq<JsonField>)

  datatype JsonField = JsonField(key: string, value: Json)

  const BIGINT_TAG := ":bigint:"
  const BASE64_TAG := ":base64:"

  predicate StartsWith(s: string, prefix: string) { prefix <= s }

  // ----- stringify -----

  function Prepare(v: Value): Value
    decreases v
  {
    match v
    case Bytes(bytes) => Str(BASE64_TAG + Base64.Encode(bytes))
    case BigInt(i) => Str(BIGINT_TAG + Decimal.Print(i))
    case Str(s) => if StartsWith(s, ":") then Str(":" + s) else v
    case Arr(items) => Arr(PrepareItems(items))
    case Obj(fields) => Obj(PrepareFields(fields))
    case WithToJSON(result) => Prepare(result)
    case _ => v
  }

  function PrepareItems(items: seq<Value>): (r: seq<Value>)
    ensures |r| == |items|
    decreases items
  {
    if items == [] then [] else [Prepare(items[0])] + PrepareItems(items[1..])
  }

  /** `result[key] = prepare(value[key])` for the defined fields.  Assigning to the key `__proto__` sets the
      prototype, so no own field comes of it. */
  function PrepareFields(fields: seq<Field>): seq<Field>
    decreases fields
  {
    if fields == [] then []
    else
      var Field(key, value) := fields[0];
      var rest := PrepareFields(fields[1..]);
      if value == Undefined || key == "__proto__" then rest else [Field(key, Prepare(value))] + rest
  }

  /** `JSON.stringify` of a prepared value; `None` is `undefined`. */
  function ToJson(v: Value): Option<Json>
    requires Prepared(v)
    decreases v
  {
    match v
    case Undefined => None
    case Null => Some(JNull)
    case Bool(b) => Some(JBool(b))
    case Num(n) => Some(JNum(n))
    case NonFinite => Some(JNull)
    case Str(s) => Some(JStr(s))
    case Arr(items) => Some(JArr(ItemsToJson(items)))
    case Obj(fields) => Some(JObj(FieldsToJson(fields)))
  }

  function ItemsToJson(items: seq<Value>): (r: seq<Json>)
    requires ItemsPrepared(items)
    decreases items
  {
    if items == [] then [] else [ToJson(items[0]).GetOr(JNull)] + ItemsToJson(items[1..])
  }

  function FieldsToJson(fields: seq<Field>): seq<JsonField>
    requires FieldsPrepared(fields)
    decreases fields
  {
    if fields == [] then []
    else
      match ToJson(fields[0].value)
      case Some(j) => [JsonField(fields[0].key, j)] + FieldsToJson(fields[1..])
      case None => FieldsToJson(fields[1..])
  }

  /** Nothing in the tree on which `JSON.stringify` would throw or call `toJSON`. */
  predicate Prepared(v: Value)
    decreases v
  {
    match v
    case BigInt(_) => false
    case Bytes(_) => false
    case WithToJSON(_) => false
    case Arr(items) => ItemsPrepared(items)
    case Obj(fields) => FieldsPrepared(fields)
    case _ => true
  }

  predicate ItemsPrepared(items: seq<Value>)
    decreases items
  {
    items == [] || (Prepared(items[0]) && ItemsPrepared(items[1..]))
  }

  predicate FieldsPrepared(fields: seq<Field>)
    decreases fields
  {
    fields == [] || (Prepared(fields[0].value) && FieldsPrepared(fields[1..]))
  }

  lemma {:induction false} PrepareIsPrepared(v: Value)
    ensures Prepared(Prepare(v))
    decreases v
  {
    match v
    case Arr(items) => ItemsArePrepared(items);
    case Obj(fields) => FieldsArePrepared(fields);
    case WithToJSON(result) => PrepareIsPrepared(result);
    case _ =>
  }

  lemma {:induction false} ItemsArePrepared(items: seq<Value>)
    ensures ItemsPrepared(PrepareItems(items))
    decreases items
  {
    if items != [] {
      PrepareIsPrepared(items[0]);
      ItemsArePrepared(items[1..]);
    }
  }

  lemma {:induction false} FieldsArePrepared(fields: seq<Field>)
    ensures FieldsPrepared(PrepareFields(fields))
    decreases fields
  {
    if fields != [] {
      PrepareIsPrepared(fields[0].value);
      FieldsArePrepared(fields[1..]);
    }
  }

  function Stringify(v: Value): Option<Json> {
    PrepareIsPrepared(v);
    ToJson(Prepare(v))
  }

  /** The texts that are stored: the tags, the escape, and everything else as it is. */
  lemma StoredTexts(s: string, i: int, bytes: seq<Base64.byte>)
    ensures Stringify(BigInt(i)) == Some(JStr(":bigint:" + Decimal.Print(i)))
    ensures Stringify(Bytes(bytes)) == Some(JStr(":base64:" + Base64.Encode(bytes)))
    ensures Stringify(Str(s)) == Some(JStr(if s != "" && s[0] == ':' then ":" + s else s))
  {
    if s != "" && s[0] == ':' { assert s[..1] == ":"; }
  }

  /** Values without tags: undefined writes no text; what is not finite is null; an object with `toJSON` is what
      that returns. */
  lemma OtherTexts(b: bool, n: real, result: Value)
    ensures Stringify(Undefined) == None && Stringify(Null) == Some(JNull) && Stringify(NonFinite) == Some(JNull)
    ensures Stringify(Bool(b)) == Some(JBool(b)) && Stringify(Num(n)) == Some(JNum(n))
    ensures Stringify(WithToJSON(result)) == Stringify(result)
  {
    PrepareIsPrepared(result);
  }

  /** An item without a text is null. */
  lemma ItemText(item: Value)
    ensures Stringify(Arr([item])) == Some(JArr([if Stringify(item).Some? then Stringify(item).value else JNull]))
  {
    PrepareIsPrepared(item);
    PrepareIsPrepared(Arr([item]));
    assert [item][1..] == [];
    var prepared := [Prepare(item)];
    assert PrepareItems([item]) == prepared && prepared[1..] == [];
    assert ItemsToJson(prepared[1..]) == [];
    assert ItemsToJson(prepared) == [ToJson(Prepare(item)).GetOr(JNull)];
  }

  /** A field without a text, or named `__proto__`, is left out. */
  lemma FieldText(key: string, value: Value)
    ensures Stringify(Obj([Field(key, value)]))
         == Some(JObj(if Stringify(value).Some? && key != "__proto__" then [JsonField(key, Stringify(value).value)] else []))
  {
    PrepareIsPrepared(value);
    PrepareIsPrepared(Obj([Field(key, value)]));
    var fields := [Field(key, value)];
    assert fields[1..] == [] && PrepareFields([]) == [];
    if value != Undefined && key != "__proto__" {
      var prepared := [Field(key, Prepare(value))];
      assert PrepareFields(fields) == prepared && prepared[1..] == [];
      assert FieldsToJson(prepared[1..]) == [];
      var text := ToJson(prepared[0].value);
      if text.Some? {
        assert FieldsToJson(prepared) == [JsonField(key, text.value)] + FieldsToJson(prepared[1..]) == [JsonField(key, text.value)];
        assert ToJson(Obj(prepared)) == Some(JObj(FieldsToJson(prepared)));
      } else {
        assert FieldsToJson(prepared) == FieldsToJson(prepared[1..]);
      }
    } else {
      assert PrepareFields(fields) == [];
    }
  }

  // ----- parse -----

  /** The reviver on a string; `None` when `BigInt` or `atob` throws. */
  function ReviveString(s: string): Option<Value> {
    if StartsWith(s, BIGINT_TAG) then
      match Decimal.Parse(s[8..])
      case Some(i) => Some(BigInt(i))
      case None => None
    else if StartsWith(s, BASE64_TAG) then
      match Base64.Decode(s[8..])
      case Some(bytes) => Some(Bytes(bytes))
      case None => None
    else if StartsWith(s, ":") then Some(Str(s[1..]))
    else Some(Str(s))
  }

  function Parse(j: Json): Option<Value>
    decreases j
  {
    match j
    case JNull => Some(Null)
    case JBool(b) => Some(Bool(b))
    case JNum(n) => Some(Num(n))
    case JStr(s) => ReviveString(s)
    case JArr(items) =>
      (match ParseItems(items)
       case Some(values) => Some(Arr(values))
       case None => None)
    case JObj(fields) =>
      (match ParseFields(fields)
       case Some(values) => Some(Obj(values))
       case None => None)
  }

  function ParseItems(items: seq<Json>): Option<seq<Value>>
    decreases items
  {
    if items == [] then Some([])
    else
      match (Parse(items[0]), ParseItems(items[1..]))
      case (Some(v), Some(rest)) => Some([v] + rest)
      case _ => None
  }

  function ParseFields(fields: seq<JsonField>): Option<seq<Field>>
    decreases fields
  {
    if fields == [] then Some([])
    else
      match (Parse(fields[0].value), ParseFields(fields[1..]))
      case (Some(v), Some(rest)) => Some([Field(fields[0].key, v)] + rest)
      case _ => None
  }

  // ----- What survives -----

  /** The value that comes back: undefined fields and `__proto__` fields are gone, undefined items and
      non-finite numbers are null, an object with `toJSON` is what that returns.  `None` when no text is
      written at all. */
  function Surviving(v: Value): Option<Value>
    decreases v
  {
    match v
    case Undefined => None
    case NonFinite => Some(Null)
    case Arr(items) => Some(Arr(SurvivingItems(items)))
    case Obj(fields) => Some(Obj(SurvivingFields(fields)))
    case WithToJSON(result) => Surviving(result)
    case _ => Some(v)
  }

  function SurvivingItems(items: seq<Value>): (r: seq<Value>)
    ensures |r| == |items|
    decreases items
  {
    if items == [] then [] else [Surviving(items[0]).GetOr(Null)] + SurvivingItems(items[1..])
  }

  function SurvivingFields(fields: seq<Field>): (r: seq<Field>)
    ensures |r| <= |fields|
    decreases fields
  {
    if fields == [] then []
    else
      match Surviving(fields[0].value)
      case Some(v) =>
        (if fields[0].key == "__proto__" then SurvivingFields(fields[1..])
         else [Field(fields[0].key, v)] + SurvivingFields(fields[1..]))
      case None => SurvivingFields(fields[1..])
  }

  /** A tree of null, booleans, finite numbers, strings, bigints, byte arrays, arrays and objects without
      a `__proto__` field. */
  predicate Clean(v: Value)
    decreases v
  {
    match v
    case Undefined => false
    case NonFinite => false
    case WithToJSON(_) => false
    case Arr(items) => ItemsClean(items)
    case Obj(fields) => FieldsClean(fields)
    case _ => true
  }

  predicate ItemsClean(items: seq<Value>)
    decreases items
  {
    items == [] || (Clean(items[0]) && ItemsClean(items[1..]))
  }

  predicate FieldsClean(fields: seq<Field>)
    decreases fields
  {
    fields == [] || (fields[0].key != "__proto__" && Clean(fields[0].value) && FieldsClean(fields[1..]))
  }

  // ----- The round trip -----

  /** No string is mistaken for a tag: strings with a colon gain one, and lose it again. */
  lemma StringsSurvive(s: string)
    ensures ReviveString(if StartsWith(s, ":") then ":" + s else s) == Some(Str(s))
  {
    if StartsWith(s, ":") {
      assert (":" + s)[1] == ':' && (":" + s)[1..] == s;
      assert BIGINT_TAG[1] == 'b' && BASE64_TAG[1] == 'b';
    } else if |s| > 0 {
      assert ":"[0] == BIGINT_TAG[0] == BASE64_TAG[0] == ':';
      assert s[0] != ':';
    }
  }

  lemma BigIntsSurvive(i: int)
    ensures ReviveString(BIGINT_TAG + Decimal.Print(i)) == Some(BigInt(i))
  {
    Decimal.ParsePrint(i);
    assert (BIGINT_TAG + Decimal.Print(i))[8..] == Decimal.Print(i);
  }

  lemma BytesSurvive(bytes: seq<Base64.byte>)
    ensures ReviveString(BASE64_TAG + Base64.Encode(bytes)) == Some(Bytes(bytes))
  {
    Base64.DecodeEncode(bytes);
    var s := BASE64_TAG + Base64.Encode(bytes);
    assert s[8..] == Base64.Encode(bytes);
    assert s[2] == BASE64_TAG[2] == 'a' && BIGINT_TAG[2] == 'i';
  }

  /** Parsing what stringify wrote gives what survives; it never throws. */
  lemma {:induction false} RoundTrip(v: Value)
    ensures Stringify(v).None? <==> Surviving(v).None?
    ensures Stringify(v).Some? ==> Parse(Stringify(v).value) == Surviving(v)
    decreases v
  {
    PrepareIsPrepared(v);
    match v
    case Str(s) => StringsSurvive(s);
    case BigInt(i) => BigIntsSurvive(i);
    case Bytes(bytes) => BytesSurvive(bytes);
    case Arr(items) => RoundTripItems(items);
    case Obj(fields) => RoundTripFields(fields);
    case WithToJSON(result) => RoundTrip(result);
    case _ =>
  }

  lemma {:induction false} RoundTripItems(items: seq<Value>)
    ensures ItemsPrepared(PrepareItems(items))
    ensures ParseItems(ItemsToJson(PrepareItems(items))) == Some(SurvivingItems(items))
    decreases items
  {
    ItemsArePrepared(items);
    if items != [] {
      RoundTrip(items[0]);
      RoundTripItems(items[1..]);
      var prepared := PrepareItems(items);
      assert prepared[1..] == PrepareItems(items[1..]);
      var json := ItemsToJson(prepared);
      assert json[1..] == ItemsToJson(prepared[1..]);
      assert Parse(json[0]) == Some(SurvivingItems(items)[0]);
    }
  }

  lemma {:induction false} RoundTripFields(fields: seq<Field>)
    ensures FieldsPrepared(PrepareFields(fields))
    ensures ParseFields(FieldsToJson(PrepareFields(fields))) == Some(SurvivingFields(fields))
    decreases fields
  {
    FieldsArePrepared(fields);
    if fields != [] {
      var Field(key, value) := fields[0];
      RoundTrip(value);
      RoundTripFields(fields[1..]);
      if value != Undefined && key != "__proto__" {
        var prepared := PrepareFields(fields);
        assert prepared[1..] == PrepareFields(fields[1..]);
        if Stringify(value).Some? {
          var json := FieldsToJson(prepared);
          assert json[1..] == FieldsToJson(prepared[1..]);
        }
      }
    }
  }

  /** A value comes back equal exactly when it is clean. */
  lemma {:induction false} CleanExactly(v: Value)
    ensures Surviving(v) == Some(v) <==> Clean(v)
    ensures Surviving(v).Some? ==> Clean(Surviving(v).value)
    decreases v
  {
    match v
    case Arr(items) => CleanItems(items);
    case Obj(fields) => CleanFields(fields);
    case WithToJSON(result) => CleanExactly(result);
    case _ =>
  }

  lemma {:induction false} CleanItems(items: seq<Value>)
    ensures SurvivingItems(items) == items <==> ItemsClean(items)
    ensures ItemsClean(SurvivingItems(items))
    decreases items
  {
    if items != [] {
      CleanExactly(items[0]);
      CleanItems(items[1..]);
      var r := SurvivingItems(items);
      assert r[1..] == SurvivingItems(items[1..]);
      if r == items { assert r[0] == items[0] && r[1..] == items[1..]; }
      if ItemsClean(items) { assert r == [items[0]] + items[1..] == items; }
    }
  }

  lemma {:induction false} CleanFields(fields: seq<Field>)
    ensures SurvivingFields(fields) == fields <==> FieldsClean(fields)
    ensures FieldsClean(SurvivingFields(fields))
    decreases fields
  {
    if fields != [] {
      var Field(key, value) := fields[0];
      CleanExactly(value);
      CleanFields(fields[1..]);
      var r := SurvivingFields(fields);
      if Surviving(value).Some? && key != "__proto__" {
        assert r[1..] == SurvivingFields(fields[1..]);
        if r == fields { assert r[0] == fields[0] && r[1..] == fields[1..]; }
        if FieldsClean(fields) { assert r == [fields[0]] + fields[1..] == fields; }
      } else {
        assert |r| < |fields|;
      }
    }
  }

  /** Parsing what stringify wrote gives the value back, exactly for the clean values. */
  lemma RoundTripExactly(v: Value)
    ensures (Stringify(v).Some? && Parse(Stringify(v).value) == Some(v)) <==> Clean(v)
  {
    RoundTrip(v);
    CleanExactly(v);
  }

  /** Two clean values with one text are one value. */
  lemma TextsDiffer(v: Value, w: Value)
    requires Clean(v) && Clean(w) && Stringify(v) == Stringify(w)
    ensures v == w
  {
    RoundTripExactly(v);
    RoundTripExactly(w);
  }

  // ----- Undefined fields -----

  /** Clean but for fields that are undefined. */
  predicate CleanButUndefinedFields(v: Value)
    decreases v
  {
    match v
    case Arr(items) => (forall i :: 0 <= i < |items| ==> CleanButUndefinedFields(items[i]))
    case Obj(fields) =>
      (forall i :: 0 <= i < |fields| ==>
         fields[i].value == Undefined || (fields[i].key != "__proto__" && CleanButUndefinedFields(fields[i].value)))
    case _ => v != Undefined && v != NonFinite && !v.WithToJSON?
  }

  function WithoutUndefinedFields(v: Value): Value
    decreases v
  {
    match v
    case Arr(items) => Arr(seq(|items|, i requires 0 <= i < |items| => WithoutUndefinedFields(items[i])))
    case Obj(fields) => Obj(DefinedFields(fields))
    case _ => v
  }

  function DefinedFields(fields: seq<Field>): seq<Field>
    decreases fields
  {
    if fields == [] then []
    else if fields[0].value == Undefined then DefinedFields(fields[1..])
    else [Field(fields[0].key, WithoutUndefinedFields(fields[0].value))] + DefinedFields(fields[1..])
  }

  /** What comes back is the tree without its undefined fields, exactly for the trees that are clean but for
      such fields. */
  lemma UndefinedFieldsVanish(v: Value)
    ensures (Stringify(v).Some? && Parse(Stringify(v).value) == Some(WithoutUndefinedFields(v)))
            <==> CleanButUndefinedFields(v)
  {
    RoundTrip(v);
    DefinedFieldsSurvive(v);
  }

  lemma {:induction false} DefinedFieldsSurvive(v: Value)
    ensures Surviving(v) == Some(WithoutUndefinedFields(v)) <==> CleanButUndefinedFields(v)
    decreases v
  {
    match v
    case Arr(items) =>
      forall i | 0 <= i < |items|
        ensures SurvivingItems(items)[i] == WithoutUndefinedFields(items[i]) <==> CleanButUndefinedFields(items[i])
      {
        ItemAt(items, i);
        DefinedFieldsSurvive(items[i]);
      }
      var kept := WithoutUndefinedFields(v).items;
      assert SurvivingItems(items) == kept <==> forall i :: 0 <= i < |items| ==> SurvivingItems(items)[i] == kept[i];
    case Obj(fields) => DefinedFieldsSurviveIn(fields);
    case WithToJSON(result) => ToJsonIsGone(result);
    case _ =>
  }

  /** No object with `toJSON` comes back. */
  lemma {:induction false} ToJsonIsGone(v: Value)
    ensures Surviving(v).Some? ==> !Surviving(v).value.WithToJSON?
    decreases v
  {
    if v.WithToJSON? { ToJsonIsGone(v.result); }
  }

  lemma {:induction false} ItemAt(items: seq<Value>, i: nat)
    requires i < |items|
    ensures SurvivingItems(items)[i] == Surviving(items[i]).GetOr(Null)
  {
    if i > 0 { ItemAt(items[1..], i - 1); }
  }

  predicate FieldsCleanOrUndefined(fields: seq<Field>) {
    forall i :: 0 <= i < |fields| ==>
      fields[i].value == Undefined || (fields[i].key != "__proto__" && CleanButUndefinedFields(fields[i].value))
  }

  lemma {:induction false} DefinedFieldsSurviveIn(fields: seq<Field>)
    ensures SurvivingFields(fields) == DefinedFields(fields) <==> FieldsCleanOrUndefined(fields)
    ensures |SurvivingFields(fields)| <= |DefinedFields(fields)|
    decreases fields
  {
    if fields != [] {
      var Field(key, value) := fields[0];
      var rest := fields[1..];
      DefinedFieldsSurvive(value);
      DefinedFieldsSurviveIn(rest);
      FieldsSplit(fields);
      var r, d := SurvivingFields(fields), DefinedFields(fields);
      if value != Undefined {
        assert d[1..] == DefinedFields(rest);
        if Surviving(value).Some? && key != "__proto__" {
          assert r[1..] == SurvivingFields(rest);
          assert r == d <==> r[0] == d[0] && r[1..] == d[1..];
        } else {
          assert |r| < |d|;
        }
      }
    }
  }

  lemma FieldsSplit(fields: seq<Field>)
    requires fields != []
    ensures FieldsCleanOrUndefined(fields) <==>
            (fields[0].value == Undefined || (fields[0].key != "__proto__" && CleanButUndefinedFields(fields[0].value)))
            && FieldsCleanOrUndefined(fields[1..])
  {
    var rest := fields[1..];
    assert forall i :: 0 <= i < |rest| ==> rest[i] == fields[i + 1];
    if FieldsCleanOrUndefined(rest) {
      assert forall i :: 0 < i < |fields| ==> fields[i] == rest[i - 1];
    }
  }
}
