/** The key-value facade `RedisOperations`. The remote store is a finite map
    from key to payload; each call's connection from the pool is left out, and
    a pipeline is a plain sequence of per-key commands on the map. */
module Operations {
  import opened Model
  import opened Codec

  type Store = map<string, Payload>

  /** The status reply of a SET. */
  const Ok: string := "OK"

  const BulkGuardMessage: string := "bulk cannot be null or empty"
  const KeysGuardMessage: string := "keys cannot be null or empty"

  // ---------------------------------------------------------------------
  // Single key

  /** `getObject(key, type)` on `store`: a missing key is a null result, a
      present one is decoded and type-checked. */
  function Get(store: Store, key: string, t: TypeTag): (r: Result<Option<Value>, Exception>)
    ensures r == Success(None) <==> key !in store
    ensures r.Success? && r.value.Some? <==> key in store && DecodesAs(store[key], t)
    ensures r.Success? && r.value.Some? ==> store[key] == Serialized(r.value.value)
    ensures r.Failure? ==> key in store && Deserialize(store[key], t) == Failure(r.error)
  {
    if key !in store then Success(None)
    else match Deserialize(store[key], t)
      case Success(v) => Success(Some(v))
      case Failure(e) => Failure(e)
  }

  /** A value saved under `k` is read back unchanged as its own class, and no
      other key reads differently. */
  lemma SaveThenGet(store: Store, k: string, v: Value, k': string, t: TypeTag)
    ensures Get(store[k := Serialize(v)], k, TagOf(v)) == Success(Some(v))
    ensures k' != k ==> Get(store[k := Serialize(v)], k', t) == Get(store, k', t)
  {
  }

  // ---------------------------------------------------------------------
  // Bulk save

  /** The payloads a bulk save writes, one per entry. */
  function EncodeAll(bulk: map<string, Value>): map<string, Payload>
  {
    map k | k in bulk :: Serialize(bulk[k])
  }

  /** After a bulk save every key of the batch reads back as its value and
      every other key reads as before. */
  lemma BulkSaveThenGet(store: Store, bulk: map<string, Value>, k: string, t: TypeTag)
    ensures k in bulk ==> Get(store + EncodeAll(bulk), k, TagOf(bulk[k])) == Success(Some(bulk[k]))
    ensures k !in bulk ==> Get(store + EncodeAll(bulk), k, t) == Get(store, k, t)
  {
  }

  // ---------------------------------------------------------------------
  // Bulk get

  /** The pipeline's reply to a GET of `key`: the payload, or null. */
  function Response(store: Store, key: string): Option<Payload>
  {
    if key in store then Some(store[key]) else None
  }

  /** The replies `syncAndReturnAll` collects, one per key, in key order: a
      reply is null exactly for a missing key and is otherwise the payload
      stored under it. */
  function Responses(store: Store, keys: seq<string>): (rs: seq<Option<Payload>>)
    ensures |rs| == |keys|
    ensures forall i :: 0 <= i < |keys| ==> (rs[i].Some? <==> keys[i] in store)
    ensures forall i :: 0 <= i < |keys| && rs[i].Some? ==> rs[i].value == store[keys[i]]
  {
    seq(|keys|, i requires 0 <= i < |keys| => Response(store, keys[i]))
  }

  /** The non-null replies, in order. */
  function NonNull(rs: seq<Option<Payload>>): seq<Payload>
  {
    if rs == [] then []
    else if rs[0].Some? then [rs[0].value] + NonNull(rs[1..])
    else NonNull(rs[1..])
  }

  /** The non-null replies of the pipeline are the payloads of the present
      keys, one each, in key order. */
  lemma {:induction false} ResponsesOfPresentKeys(store: Store, keys: seq<string>)
    ensures |NonNull(Responses(store, keys))| == |PresentKeys(store, keys)|
    ensures forall i :: 0 <= i < |PresentKeys(store, keys)| ==>
      NonNull(Responses(store, keys))[i] == store[PresentKeys(store, keys)[i]]
  {
    if keys != [] {
      var rs := Responses(store, keys);
      assert rs[1..] == Responses(store, keys[1..]);
      ResponsesOfPresentKeys(store, keys[1..]);
    }
  }

  /** Prefixes a successful list with `vs`; a failure passes through. */
  function Prepend(vs: seq<Value>, r: Result<seq<Value>, Exception>): Result<seq<Value>, Exception>
  {
    match r
    case Success(ws) => Success(vs + ws)
    case Failure(e) => Failure(e)
  }

  lemma PrependTwice(a: seq<Value>, b: seq<Value>, r: Result<seq<Value>, Exception>)
    ensures Prepend(a, Prepend(b, r)) == Prepend(a + b, r)
  {
    if r.Success? {
      assert a + (b + r.value) == (a + b) + r.value;
    }
  }

  lemma PrependEmpty(r: Result<seq<Value>, Exception>)
    ensures Prepend([], r) == r
  {
    if r.Success? {
      assert [] + r.value == r.value;
    }
  }

  /** The second loop of `getListObject`: null replies are skipped, the
      others decoded in order; the first decoding error aborts. */
  function DecodePresent(rs: seq<Option<Payload>>, t: TypeTag): (r: Result<seq<Value>, Exception>)
    ensures r.Success? ==> |r.value| <= |rs|
    ensures r.Success? ==> forall i :: 0 <= i < |r.value| ==> TagOf(r.value[i]) == t
  {
    if rs == [] then Success([])
    else match rs[0]
      case None => DecodePresent(rs[1..], t)
      case Some(p) =>
        match Deserialize(p, t)
        case Failure(e) => Failure(e)
        case Success(v) => Prepend([v], DecodePresent(rs[1..], t))
  }

  /** `getListObject(keys, type)`: a null or empty key list is rejected,
      otherwise the replies are decoded with misses dropped. */
  function GetList(store: Store, keys: Option<seq<string>>, t: TypeTag): (r: Result<seq<Value>, Exception>)
    ensures keys.None? || keys.value == [] ==> r == Failure(RuntimeFailure(KeysGuardMessage))
  {
    if keys.None? || keys.value == [] then Failure(RuntimeFailure(KeysGuardMessage))
    else DecodePresent(Responses(store, keys.value), t)
  }

  /** The keys of `keys` that are present in `store`, in order, repeats kept. */
  function PresentKeys(store: Store, keys: seq<string>): (ks: seq<string>)
    ensures |ks| <= |keys|
    ensures forall k :: k in ks <==> k in keys && k in store
  {
    if keys == [] then []
    else if keys[0] in store then [keys[0]] + PresentKeys(store, keys[1..])
    else PresentKeys(store, keys[1..])
  }

  /** A bulk get of a non-empty key list succeeds exactly when every present
      key decodes as `t`; it then returns, in key order, the value of each
      present key and nothing for the missing ones, so its length is the
      number of present keys. When it fails, the error is that of a present
      key whose payload does not decode. */
  lemma {:induction false} GetListExact(store: Store, keys: seq<string>, t: TypeTag)
    requires keys != []
    ensures var r := GetList(store, Some(keys), t);
      && (r.Success? <==> forall k :: k in keys && k in store ==> DecodesAs(store[k], t))
      && (r.Success? ==> |r.value| == |PresentKeys(store, keys)|)
      && (r.Success? ==> forall i :: 0 <= i < |r.value| ==>
            store[PresentKeys(store, keys)[i]] == Serialized(r.value[i]))
      && (r.Failure? ==> exists k :: k in keys && k in store && Deserialize(store[k], t) == Failure(r.error))
  {
    DecodePresentExact(store, keys, t);
  }

  lemma {:induction false} DecodePresentExact(store: Store, keys: seq<string>, t: TypeTag)
    ensures var r := DecodePresent(Responses(store, keys), t);
      && (r.Success? <==> forall k :: k in keys && k in store ==> DecodesAs(store[k], t))
      && (r.Success? ==> |r.value| == |PresentKeys(store, keys)|)
      && (r.Success? ==> forall i :: 0 <= i < |r.value| ==>
            store[PresentKeys(store, keys)[i]] == Serialized(r.value[i]))
      && (r.Failure? ==> exists k :: k in keys && k in store && Deserialize(store[k], t) == Failure(r.error))
  {
    var rs := Responses(store, keys);
    if keys != [] {
      var tail := keys[1..];
      assert rs[0] == Response(store, keys[0]);
      assert rs[1..] == Responses(store, tail);
      assert forall k :: k in keys <==> k == keys[0] || k in tail;
      DecodePresentExact(store, tail, t);
      var k := keys[0];
      if k in store {
        var d := Deserialize(store[k], t);
        if d.Success? {
          var rest := DecodePresent(Responses(store, tail), t);
          if rest.Success? {
            var vs := [d.value] + rest.value;
            assert PresentKeys(store, keys) == [k] + PresentKeys(store, tail);
            assert forall i :: 0 < i < |vs| ==> vs[i] == rest.value[i - 1];
          }
        }
      }
    }
  }

  /** Bulk round trip: when every requested key was written by a bulk save
      with a value of class `t`, the bulk get returns exactly those values,
      in key order. */
  lemma {:induction false} BulkRoundTrip(store: Store, bulk: map<string, Value>, keys: seq<string>, t: TypeTag)
    requires keys != []
    requires forall k :: k in keys ==> k in bulk && TagOf(bulk[k]) == t
    ensures GetList(store + EncodeAll(bulk), Some(keys), t)
            == Success(seq(|keys|, i requires 0 <= i < |keys| => bulk[keys[i]]))
  {
    AllPresent(store + EncodeAll(bulk), bulk, keys, t);
  }

  lemma {:induction false} AllPresent(s: Store, bulk: map<string, Value>, keys: seq<string>, t: TypeTag)
    requires forall k :: k in keys ==> k in bulk && TagOf(bulk[k]) == t && k in s && s[k] == Serialize(bulk[k])
    ensures DecodePresent(Responses(s, keys), t)
            == Success(seq(|keys|, i requires 0 <= i < |keys| => bulk[keys[i]]))
  {
    var whole := seq(|keys|, i requires 0 <= i < |keys| => bulk[keys[i]]);
    if keys == [] {
      assert whole == [];
    } else {
      var tail := keys[1..];
      var rs := Responses(s, keys);
      assert rs[1..] == Responses(s, tail);
      AllPresent(s, bulk, tail, t);
      var rest := seq(|tail|, i requires 0 <= i < |tail| => bulk[tail[i]]);
      assert whole == [bulk[keys[0]]] + rest;
      assert rs[0] == Some(Serialized(bulk[keys[0]]));
      assert Deserialize(Serialized(bulk[keys[0]]), t) == Success(bulk[keys[0]]);
      assert DecodePresent(rs, t) == Prepend([bulk[keys[0]]], DecodePresent(rs[1..], t));
    }
  }

  // ---------------------------------------------------------------------
  // Delete

  /** The reply of `DEL keys...`: the keys are removed one after another and
      each counts when it still existed. */
  function DeleteCount(store: Store, keys: seq<string>): (n: nat)
    ensures n <= |keys|
  {
    if keys == [] then 0
    else (if keys[0] in store then 1 else 0) + DeleteCount(store - {keys[0]}, keys[1..])
  }

  /** The keys named by a key list. */
  function KeySet(keys: seq<string>): set<string>
  {
    set k | k in keys
  }

  /** The count is the number of distinct keys of `keys` that existed. */
  lemma {:induction false} DeleteCountIsExisting(store: Store, keys: seq<string>)
    ensures DeleteCount(store, keys) == |store.Keys * KeySet(keys)|
  {
    if keys == [] {
      assert KeySet(keys) == {};
    } else {
      var k, tail := keys[0], keys[1..];
      assert forall x :: x in keys <==> x == k || x in tail;
      assert KeySet(keys) == {k} + KeySet(tail);
      DeleteCountIsExisting(store - {k}, tail);
      var live, named := store.Keys, KeySet(tail);
      assert (store - {k}).Keys == live - {k};
      if k in store {
        assert live * ({k} + named) == {k} + (live - {k}) * named;
        assert k !in (live - {k}) * named;
      } else {
        assert store - {k} == store;
        assert live * ({k} + named) == live * named;
      }
    }
  }

  /** Deleting the same keys again deletes nothing. */
  lemma DeleteAgainCountsZero(store: Store, keys: seq<string>)
    ensures DeleteCount(store - KeySet(keys), keys) == 0
  {
    DeleteCountIsExisting(store - KeySet(keys), keys);
    assert (store - KeySet(keys)).Keys * KeySet(keys) == {};
  }

  /** Deleting one key reports 1 when it existed and 0 otherwise. */
  lemma DeleteOne(store: Store, key: string)
    ensures DeleteCount(store, [key]) == if key in store then 1 else 0
  {
  }

  // ---------------------------------------------------------------------
  // The facade

  class RedisOperations {
    /** The contents of the remote store. */
    var store: Store

    constructor (initial: Store)
      ensures store == initial
    {
      store := initial;
    }

    /** `saveOrUpdateObject(key, object)`: an unconditional SET. */
    method SaveOrUpdateObject(key: string, v: Value) returns (r: string)
      modifies this
      ensures r == Ok
      ensures store == old(store)[key := Serialize(v)]
    {
      store := store[key := Serialize(v)];
      r := Ok;
    }

    /** `getObject(key, type)`; the store is left as it is. */
    method GetObject(key: string, t: TypeTag) returns (r: Result<Option<Value>, Exception>)
      ensures r == Get(store, key, t)
    {
      var response := Response(store, key);
      if response.None? {
        return Success(None);
      }
      var d := Deserialize(response.value, t);
      if d.Failure? {
        return Failure(d.error);
      }
      return Success(Some(d.value));
    }

    /** `saveOrUpdateBulkObject(bulk)`: only a null map is rejected (an empty
        one is accepted and writes nothing); otherwise one SET per entry, in
        the map's iteration order. */
    method SaveOrUpdateBulkObject(bulk: Option<map<string, Value>>) returns (r: Result<(), Exception>)
      modifies this
      ensures bulk.None? ==> r == Failure(RuntimeFailure(BulkGuardMessage)) && store == old(store)
      ensures bulk.Some? ==> r == Success(()) && store == old(store) + EncodeAll(bulk.value)
    {
      if bulk.None? {
        return Failure(RuntimeFailure(BulkGuardMessage));
      }
      var entries := bulk.value;
      var pending := entries.Keys;
      while pending != {}
        invariant pending <= entries.Keys
        invariant forall k :: k in store <==> k in old(store) || (k in entries && k !in pending)
        invariant forall k :: k in store ==>
          store[k] == if k in entries && k !in pending then Serialize(entries[k]) else old(store)[k]
        decreases pending
      {
        var k :| k in pending;
        store := store[k := Serialize(entries[k])];
        pending := pending - {k};
      }
      assert store == old(store) + EncodeAll(entries);
      return Success(());
    }

    /** `getListObject(keys, type)`: a pipelined GET per key, then the
        non-null replies decoded in order. */
    method GetListObject(keys: Option<seq<string>>, t: TypeTag) returns (r: Result<seq<Value>, Exception>)
      ensures r == GetList(store, keys, t)
    {
      if keys.None? || |keys.value| == 0 {
        return Failure(RuntimeFailure(KeysGuardMessage));
      }
      var ks := keys.value;
      var responses: seq<Option<Payload>> := [];
      for i := 0 to |ks|
        invariant |responses| == i
        invariant forall j :: 0 <= j < i ==> responses[j] == Response(store, ks[j])
      {
        responses := responses + [Response(store, ks[i])];
      }
      assert responses == Responses(store, ks);
      var result: seq<Value> := [];
      assert responses[0..] == responses;
      PrependEmpty(DecodePresent(responses, t));
      for i := 0 to |responses|
        invariant DecodePresent(responses, t) == Prepend(result, DecodePresent(responses[i..], t))
      {
        assert responses[i..][1..] == responses[i + 1..];
        if responses[i].Some? {
          var d := Deserialize(responses[i].value, t);
          if d.Failure? {
            return Failure(d.error);
          }
          PrependTwice(result, [d.value], DecodePresent(responses[i + 1..], t));
          result := result + [d.value];
        }
      }
      assert responses[|responses|..] == [];
      assert result + [] == result;
      return Success(result);
    }

    /** `deleteKeys(keys...)`: removes every given key and returns how many
        of them existed. */
    method DeleteKeys(keys: seq<string>) returns (n: nat)
      modifies this
      ensures n == DeleteCount(old(store), keys)
      ensures store == old(store) - KeySet(keys)
    {
      n := 0;
      for i := 0 to |keys|
        invariant store == old(store) - KeySet(keys[..i])
        invariant n + DeleteCount(store, keys[i..]) == DeleteCount(old(store), keys)
      {
        assert keys[i..][1..] == keys[i + 1..];
        assert KeySet(keys[..i + 1]) == KeySet(keys[..i]) + {keys[i]};
        if keys[i] in store {
          n := n + 1;
        }
        store := store - {keys[i]};
      }
      assert keys[..|keys|] == keys;
    }
  }
}
