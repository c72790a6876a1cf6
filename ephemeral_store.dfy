/** The contract every ephemeral backend shares, as a reference store: a map
    from (location, key) to the values that key holds there, each value with
    its optional expiration. The functions state what each operation leaves
    behind; the class `EphemeralStore` performs the operations in place. */
module EphemeralStores {
  import opened Wrappers
  import opened EphemeralData

  type Slot = (Location, Key)

  /** The values of one key, each mapped to its expiration. */
  type Entries = map<string, Option<int>>

  type Store = map<Slot, Entries>

  /** No key is stored with an empty set of values: a key exists exactly
      when it holds a value. */
  predicate Wellformed(st: Store)
  {
    forall s :: s in st ==> |st[s]| > 0
  }

  function EntriesAt(st: Store, key: Key, loc: Location): (r: Entries)
    ensures (loc, key) !in st ==> r == map[]
  {
    if (loc, key) in st then st[(loc, key)] else map[]
  }

  function ValuesAt(st: Store, key: Key, loc: Location): set<string>
  {
    EntriesAt(st, key, loc).Keys
  }

  /** The store with the key's entries replaced; a key left without values
      is removed, so no empty key is ever stored. */
  function PutEntries(st: Store, key: Key, loc: Location, e: Entries): (r: Store)
    ensures EntriesAt(r, key, loc) == e
    ensures r - {(loc, key)} == st - {(loc, key)}
    ensures Wellformed(st) ==> Wellformed(r)
  {
    if |e| == 0 then st - {(loc, key)} else st[(loc, key) := e]
  }

  /** An entry has expired once `now` is past its expiration instant. */
  predicate Expired(expiration: Option<int>, now: int)
  {
    expiration.Some? && expiration.value < now
  }

  /** `set`: the key holds the one new value afterwards, whatever it held
      before; nothing else changes. */
  function AfterSet(st: Store, input: Input, loc: Location): (r: Store)
    ensures EntriesAt(r, input.key, loc) == map[input.value := input.expiration]
    ensures ValuesAt(r, input.key, loc) == {input.value}
    ensures r - {(loc, input.key)} == st - {(loc, input.key)}
    ensures Wellformed(st) ==> Wellformed(r)
  {
    PutEntries(st, input.key, loc, map[input.value := input.expiration])
  }

  /** `update`: adds the value; when the value is already there only its
      expiration changes, and only when one is supplied. */
  function AfterUpdate(st: Store, input: Input, loc: Location): (r: Store)
    ensures ValuesAt(r, input.key, loc) == ValuesAt(st, input.key, loc) + {input.value}
    ensures input.value in EntriesAt(st, input.key, loc) && input.expiration.None? ==> r == st
    ensures EntriesAt(r, input.key, loc)[input.value] ==
      if input.value in EntriesAt(st, input.key, loc) && input.expiration.None?
      then EntriesAt(st, input.key, loc)[input.value] else input.expiration
    ensures forall v :: v in EntriesAt(st, input.key, loc) && v != input.value ==>
      EntriesAt(r, input.key, loc)[v] == EntriesAt(st, input.key, loc)[v]
    ensures r - {(loc, input.key)} == st - {(loc, input.key)}
    ensures Wellformed(st) ==> Wellformed(r)
  {
    var cur := EntriesAt(st, input.key, loc);
    if input.value in cur && input.expiration.None? then st
    else PutEntries(st, input.key, loc, cur[input.value := input.expiration])
  }

  /** `delete`: removes that one value; deleting a value the key does not
      hold changes nothing. */
  function AfterDelete(st: Store, key: Key, value: string, loc: Location): (r: Store)
    requires Wellformed(st)
    ensures Wellformed(r)
    ensures ValuesAt(r, key, loc) == ValuesAt(st, key, loc) - {value}
    ensures forall v :: v in EntriesAt(r, key, loc) ==> EntriesAt(r, key, loc)[v] == EntriesAt(st, key, loc)[v]
    ensures value !in ValuesAt(st, key, loc) ==> r == st
    ensures r - {(loc, key)} == st - {(loc, key)}
  {
    var cur := EntriesAt(st, key, loc);
    if value !in cur then st
    else PutEntries(st, key, loc, cur - {value})
  }

  /** The entries that have not expired by `now`, with their expirations. */
  function Unexpired(cur: Entries, now: int): (r: Entries)
    ensures forall v :: v in r <==> v in cur && !Expired(cur[v], now)
    ensures forall v :: v in r ==> r[v] == cur[v]
  {
    map v | v in cur && !Expired(cur[v], now) :: cur[v]
  }

  /** `purgeExpired` as a backend without native expiry performs it: the
      expired values of the key go, the others stay with their expirations. */
  function AfterPurge(st: Store, key: Key, loc: Location, now: int): (r: Store)
    ensures forall v :: v in EntriesAt(r, key, loc) <==>
      v in EntriesAt(st, key, loc) && !Expired(EntriesAt(st, key, loc)[v], now)
    ensures forall v :: v in EntriesAt(r, key, loc) ==> EntriesAt(r, key, loc)[v] == EntriesAt(st, key, loc)[v]
    ensures r - {(loc, key)} == st - {(loc, key)}
    ensures Wellformed(st) ==> Wellformed(r)
  {
    PutEntries(st, key, loc, Unexpired(EntriesAt(st, key, loc), now))
  }

  /** What any backend may do on `purgeExpired`: remove some expired values
      of that key (possibly none, when expiry is native) and touch nothing
      else. */
  ghost predicate AdmissiblePurge(st: Store, r: Store, key: Key, loc: Location, now: int)
  {
    && r - {(loc, key)} == st - {(loc, key)}
    && (forall v :: v in EntriesAt(r, key, loc) ==>
          v in EntriesAt(st, key, loc) && EntriesAt(r, key, loc)[v] == EntriesAt(st, key, loc)[v])
    && (forall v :: v in EntriesAt(st, key, loc) && v !in EntriesAt(r, key, loc) ==>
          Expired(EntriesAt(st, key, loc)[v], now))
  }

  // ---------------------------------------------------------------- lemmas

  /** On a key the location does not hold, `update` is `set`. */
  lemma UpdateOfAbsentIsSet(st: Store, input: Input, loc: Location)
    requires (loc, input.key) !in st
    ensures AfterUpdate(st, input, loc) == AfterSet(st, input, loc)
  {
  }

  /** A new value makes the value set grow by exactly one; a value already
      held leaves the value set as it is. */
  lemma UpdateCount(st: Store, input: Input, loc: Location)
    ensures input.value !in ValuesAt(st, input.key, loc) ==>
      |ValuesAt(AfterUpdate(st, input, loc), input.key, loc)| == |ValuesAt(st, input.key, loc)| + 1
    ensures input.value in ValuesAt(st, input.key, loc) ==>
      ValuesAt(AfterUpdate(st, input, loc), input.key, loc) == ValuesAt(st, input.key, loc)
  {
  }

  /** Repeating an update adds no duplicate and changes nothing more. */
  lemma UpdateIdempotent(st: Store, input: Input, loc: Location)
    ensures AfterUpdate(AfterUpdate(st, input, loc), input, loc) == AfterUpdate(st, input, loc)
  {
    var once := AfterUpdate(st, input, loc);
    if !(input.value in EntriesAt(st, input.key, loc) && input.expiration.None?) {
      var slot := (loc, input.key);
      var cur := EntriesAt(st, input.key, loc);
      assert EntriesAt(once, input.key, loc) == cur[input.value := input.expiration];
      assert EntriesAt(once, input.key, loc)[input.value := input.expiration] == cur[input.value := input.expiration];
    }
  }

  /** Two sets of one key: only the second value survives. */
  lemma SetOverwrites(st: Store, first: Input, second: Input, loc: Location)
    requires first.key == second.key
    ensures ValuesAt(AfterSet(AfterSet(st, first, loc), second, loc), second.key, loc) == {second.value}
  {
  }

  /** Two updates of one key with different values: both are held. */
  lemma UpdatesAccumulate(st: Store, first: Input, second: Input, loc: Location)
    requires first.key == second.key
    ensures ValuesAt(AfterUpdate(AfterUpdate(st, first, loc), second, loc), first.key, loc)
      == ValuesAt(st, first.key, loc) + {first.value, second.value}
  {
  }

  /** Putting back a key's own entries into a store that agrees everywhere
      else gives the original store. */
  lemma PutEntriesRestores(st: Store, other: Store, key: Key, loc: Location)
    requires Wellformed(st)
    requires other - {(loc, key)} == st - {(loc, key)}
    ensures PutEntries(other, key, loc, EntriesAt(st, key, loc)) == st
  {
    var slot := (loc, key);
    var r := PutEntries(other, key, loc, EntriesAt(st, key, loc));
    assert slot in r <==> slot in st;
    forall s | s in st ensures s in r && r[s] == st[s] {
      if s != slot {
        assert s in st - {slot};
        assert (st - {slot})[s] == (r - {slot})[s];
      }
    }
    forall s | s in r ensures s in st {
      if s != slot {
        assert s in r - {slot};
      }
    }
  }

  /** Deleting the value that an update just added restores the store. */
  lemma DeleteUndoesUpdate(st: Store, input: Input, loc: Location)
    requires Wellformed(st)
    requires input.value !in ValuesAt(st, input.key, loc)
    ensures AfterDelete(AfterUpdate(st, input, loc), input.key, input.value, loc) == st
  {
    var cur := EntriesAt(st, input.key, loc);
    var mid := AfterUpdate(st, input, loc);
    assert EntriesAt(mid, input.key, loc) - {input.value} == cur;
    PutEntriesRestores(st, mid, input.key, loc);
  }

  /** Purging twice is purging once: the maintenance hook is safe to call
      redundantly. */
  lemma PurgeIdempotent(st: Store, key: Key, loc: Location, now: int)
    ensures AfterPurge(AfterPurge(st, key, loc, now), key, loc, now) == AfterPurge(st, key, loc, now)
  {
    var once := AfterPurge(st, key, loc, now);
    var twice := AfterPurge(once, key, loc, now);
    var slot := (loc, key);
    assert twice - {slot} == once - {slot};
    assert EntriesAt(twice, key, loc) == EntriesAt(once, key, loc);
    assert slot in twice <==> slot in once;
  }

  /** The reference purge and the no-op purge of a backend with native
      expiry both meet the contract, and the reference purge leaves no
      expired value of the key behind. */
  lemma PurgeMeetsContract(st: Store, key: Key, loc: Location, now: int)
    ensures AdmissiblePurge(st, AfterPurge(st, key, loc, now), key, loc, now)
    ensures AdmissiblePurge(st, st, key, loc, now)
    ensures forall v :: v in EntriesAt(AfterPurge(st, key, loc, now), key, loc) ==>
      !Expired(EntriesAt(AfterPurge(st, key, loc, now), key, loc)[v], now)
  {
  }

  /** The example session: set "1", update "2", delete "1" leaves only "2". */
  lemma LoginCountSession(st: Store, loc: Location)
    requires Wellformed(st)
    ensures var k := Key("loginCount", None);
      var s1 := AfterSet(st, Input(k, "1", None), loc);
      var s2 := AfterUpdate(s1, Input(k, "2", None), loc);
      var s3 := AfterDelete(s2, k, "1", loc);
      && ValuesAt(s1, k, loc) == {"1"}
      && ValuesAt(s2, k, loc) == {"1", "2"}
      && ValuesAt(s3, k, loc) == {"2"}
  {
  }

  // ---------------------------------------------------------------- the store

  class EphemeralStore {
    var data: Store
    var encoder: Option<AttributeEncoder>

    ghost predicate Valid()
      reads this
    {
      Wellformed(data)
    }

    constructor ()
      ensures Valid() && data == map[] && encoder == None
    {
      data := map[];
      encoder := None;
    }

    method SetAttributeEncoder(e: AttributeEncoder)
      modifies this`encoder
      ensures encoder == Some(e)
    {
      encoder := Some(e);
    }

    /** The key's attribute name, as the bound encoder writes it. Under a
        lawful encoder, any value stored under that name decodes back to
        this key, with the value intact. */
    function EncodeKey(key: Key, target: Location): (r: string)
      reads this
      requires encoder.Some?
      ensures r == encoder.value.encodeKey(key, target)
      ensures Lawful(encoder.value) ==> forall v: string, exp: Option<int> ::
        encoder.value.decode(r, encoder.value.encodeValue(Input(key, v, exp), target)) == KeyValuePair(key, v)
    {
      encoder.value.encodeKey(key, target)
    }

    /** The overload taking an input encodes the input's key. */
    function EncodeInputKey(input: Input, target: Location): (r: string)
      reads this
      requires encoder.Some?
      ensures r == EncodeKey(input.key, target)
    {
      encoder.value.encodeKey(input.key, target)
    }

    /** The input's stored value, as the bound encoder writes it. Under a
        lawful encoder, stored under the input's key it decodes back to the
        input's key and value. */
    function EncodeValue(input: Input, target: Location): (r: string)
      reads this
      requires encoder.Some?
      ensures r == encoder.value.encodeValue(input, target)
      ensures Lawful(encoder.value) ==>
        encoder.value.decode(encoder.value.encodeKey(input.key, target), r) == KeyValuePair(input.key, input.value)
    {
      encoder.value.encodeValue(input, target)
    }

    /** The key and value the bound encoder reads from a stored pair. Under
        a lawful encoder, a pair the encoder wrote for some input at some
        location is read as that input's key and value. */
    function Decode(key: string, value: string): (r: KeyValuePair)
      reads this
      requires encoder.Some?
      ensures r == encoder.value.decode(key, value)
      ensures Lawful(encoder.value) ==> forall i: Input, l: Location |
        key == encoder.value.encodeKey(i.key, l) && value == encoder.value.encodeValue(i, l) ::
          r == KeyValuePair(i.key, i.value)
    {
      encoder.value.decode(key, value)
    }

    /** With a lawful encoder, decoding what the store encodes gives back
        the input's key and value. */
    lemma DecodeInvertsEncode(input: Input, target: Location)
      requires encoder.Some? && Lawful(encoder.value)
      ensures Decode(EncodeInputKey(input, target), EncodeValue(input, target))
        == KeyValuePair(input.key, input.value)
    {
    }

    /** `get`: every value held, and an empty result for a missing key. */
    method Get(key: Key, location: Location) returns (r: EphemeralResult)
      requires Valid()
      ensures r.key == key && r.values == ValuesAt(data, key, location)
      ensures (location, key) !in data ==> r.IsEmpty()
    {
      r := EphemeralResult(key, if (location, key) in data then data[(location, key)].Keys else {});
    }

    /** `has`: true exactly when `get` would return a non-empty result. */
    method Has(key: Key, location: Location) returns (b: bool)
      requires Valid()
      ensures b <==> ValuesAt(data, key, location) != {}
    {
      b := (location, key) in data;
    }

    method Set(input: Input, location: Location)
      requires Valid()
      modifies this`data
      ensures Valid() && data == AfterSet(old(data), input, location)
    {
      data := data[(location, input.key) := map[input.value := input.expiration]];
    }

    method Update(input: Input, location: Location)
      requires Valid()
      modifies this`data
      ensures Valid() && data == AfterUpdate(old(data), input, location)
    {
      var slot := (location, input.key);
      var cur := if slot in data then data[slot] else map[];
      if !(input.value in cur && input.expiration.None?) {
        data := data[slot := cur[input.value := input.expiration]];
      }
    }

    method Delete(key: Key, value: string, location: Location)
      requires Valid()
      modifies this`data
      ensures Valid() && data == AfterDelete(old(data), key, value, location)
    {
      var slot := (location, key);
      if slot in data && value in data[slot] {
        var rest := data[slot] - {value};
        if |rest| == 0 {
          data := data - {slot};
        } else {
          data := data[slot := rest];
        }
      }
    }

    /** `now` stands for the clock the backend compares expirations with. */
    method PurgeExpired(key: Key, location: Location, now: int)
      requires Valid()
      modifies this`data
      ensures Valid() && data == AfterPurge(old(data), key, location, now)
    {
      var slot := (location, key);
      var kept := Unexpired(if slot in data then data[slot] else map[], now);
      if |kept| == 0 {
        data := data - {slot};
      } else {
        data := data[slot := kept];
      }
    }
  }
}
