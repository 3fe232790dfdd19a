/** The degraded-mode cache policy of src/utils/cache.js. The key-value store sits
    behind a client that may be closed; reads then miss and writes do nothing, and
    every error is swallowed. JSON text is produced and read back by the `encode` and
    `decode` functions the caller supplies (JSON.stringify and JSON.parse), where
    `None` stands for "threw" (or, for `encode`, "gave back no text"). Whether the
    store's own reply fails (a dropped connection after the open check) is the
    `fails` argument. Entries never expire here: there is no clock. */
module Cache {

  import opened Wrappers

  /** The expiry classes, in seconds. */
  const CourseByIdExpiry: int := 3600
  const AllCoursesExpiry: int := 1800
  const SearchExpiry: int := 900

  /** A stored text and the time to live it was written with, if any. */
  datatype Entry = Entry(value: string, ttl: Option<nat>)

  type Store = map<string, Entry>

  /** JavaScript truthiness of the `expiry` argument: null (the default) and 0 are falsy. */
  predicate Truthy(expiry: Option<int>): (t: bool)
    ensures t ==> expiry.Some?
    ensures expiry == None || expiry == Some(0) ==> !t
  {
    expiry.Some? && expiry.value != 0
  }

  /** What `getFromCache(key)` resolves to. */
  function Lookup<V>(isOpen: bool, store: Store, key: string,
                     decode: string -> Option<V>, fails: bool): (r: Option<V>)
    ensures !isOpen || fails ==> r == None
    ensures r.Some? ==> key in store && store[key].value != "" && r == decode(store[key].value)
  {
    if !isOpen || fails then None
    else if key in store && store[key].value != "" then decode(store[key].value)
    else None
  }

  /** The answer of `setCache` and the store it leaves behind. */
  datatype SetOutcome = SetOutcome(ok: bool, store: Store)

  /** What `setCache(key, data, expiry)` does, given `encoded`, the text JSON.stringify
      produced for `data`. A truthy expiry goes through SETEX, which the server refuses
      for a negative time to live; otherwise a plain SET stores the text without one.
      Every other refusal by the server (a time to live too large for it, or a huge
      number JavaScript renders in exponent notation) is covered by `fails`. */
  function Write(isOpen: bool, store: Store, key: string, encoded: Option<string>,
                 expiry: Option<int>, fails: bool): (o: SetOutcome)
    ensures !isOpen || fails || encoded.None? ==> o == SetOutcome(false, store)
    ensures !o.ok ==> o.store == store
    ensures o.ok ==>
      encoded.Some? && key in o.store &&
      o.store == store[key := Entry(encoded.value, o.store[key].ttl)]
  {
    if !isOpen || encoded.None? || fails then SetOutcome(false, store)
    else if Truthy(expiry) then
      if expiry.value < 0 then SetOutcome(false, store)
      else SetOutcome(true, store[key := Entry(encoded.value, Some(expiry.value))])
    else SetOutcome(true, store[key := Entry(encoded.value, None)])
  }

  /** The shared client: its connection flag and the entries of the store behind it. */
  class CacheClient {
    var isOpen: bool
    var store: Store

    constructor (isOpen: bool, store: Store)
      ensures this.isOpen == isOpen && this.store == store
    {
      this.isOpen := isOpen;
      this.store := store;
    }

    /** `getFromCache`: a miss while closed, on an absent or empty entry, on a failing
        read or an unreadable text; otherwise the decoded text. Never throws and, having
        no modifies clause, never changes the client or the store. */
    method GetFromCache<V>(key: string, decode: string -> Option<V>, fails: bool)
      returns (r: Option<V>)
      ensures r == Lookup(isOpen, store, key, decode, fails)
      ensures !isOpen || fails ==> r == None
      ensures key !in store || store[key].value == "" ==> r == None
      ensures isOpen && !fails && key in store && store[key].value != "" ==>
        r == decode(store[key].value)
    {
      if !isOpen {
        return None;
      }
      if fails {
        return None;
      }
      if key in store && store[key].value != "" {
        r := decode(store[key].value);
      } else {
        r := None;
      }
    }

    /** `setCache`: false and no change while closed or on any error; otherwise the
        encoded text is stored under `key`, with the expiry as its time to live when the
        expiry is truthy, and true is returned. Other keys are never touched. */
    method SetCache<V>(key: string, data: V, encode: V -> Option<string>,
                       expiry: Option<int>, fails: bool) returns (ok: bool)
      modifies this`store
      ensures SetOutcome(ok, store) == Write(isOpen, old(store), key, encode(data), expiry, fails)
      ensures !isOpen ==> !ok && store == old(store)
      ensures ok ==> key in store && Some(store[key].value) == encode(data)
      ensures ok ==> store[key].ttl == (if Truthy(expiry) then Some(expiry.value as nat) else None)
      ensures forall k :: k != key ==> (k in store <==> k in old(store))
      ensures forall k :: k != key && k in store ==> store[k] == old(store)[k]
    {
      if !isOpen {
        return false;
      }
      var encoded := encode(data);
      if encoded.None? || fails {
        return false;
      }
      if Truthy(expiry) {
        if expiry.value < 0 {
          return false;
        }
        store := store[key := Entry(encoded.value, Some(expiry.value))];
      } else {
        store := store[key := Entry(encoded.value, None)];
      }
      ok := true;
    }
  }

  /** A closed client misses every read and turns every write into a failing no-op. */
  lemma ClosedClientIsInert<V>(store: Store, key: string, decode: string -> Option<V>,
                               encoded: Option<string>, expiry: Option<int>, fails: bool)
    ensures Lookup(false, store, key, decode, fails) == None
    ensures Write(false, store, key, encoded, expiry, fails) == SetOutcome(false, store)
  {
  }

  /** A write only changes the entry under its own key, and only when it reports success. */
  lemma WriteIsLocal(isOpen: bool, store: Store, key: string, encoded: Option<string>,
                     expiry: Option<int>, fails: bool)
    ensures var o := Write(isOpen, store, key, encoded, expiry, fails);
      (!o.ok ==> o.store == store) &&
      (o.ok ==> o.store.Keys == store.Keys + {key}) &&
      (forall k :: k in store && k != key ==> o.store[k] == store[k])
  {
  }

  /** Round trip: on an open client without failures, a value written with an expiry
      the server accepts is read back as that value, provided the JSON text is not empty
      and decodes to the value again. */
  lemma WriteThenLookup<V>(store: Store, key: string, data: V, encode: V -> Option<string>,
                           decode: string -> Option<V>, expiry: Option<int>)
    requires encode(data).Some? && encode(data).value != ""
    requires decode(encode(data).value) == Some(data)
    requires !(Truthy(expiry) && expiry.value < 0)
    ensures var o := Write(true, store, key, encode(data), expiry, false);
      o.ok && Lookup(true, o.store, key, decode, false) == Some(data)
  {
  }

  /** A later write to the same key wins: the read sees the last text written. */
  lemma LastWriteWins<V>(store: Store, key: string, first: Option<string>, second: string,
                         decode: string -> Option<V>, e1: Option<int>, e2: Option<int>)
    requires second != "" && !(Truthy(e2) && e2.value < 0)
    ensures var o1 := Write(true, store, key, first, e1, false);
      var o2 := Write(true, o1.store, key, Some(second), e2, false);
      Lookup(true, o2.store, key, decode, false) == decode(second)
  {
  }

  /** The three expiry classes are truthy and accepted, so entries written with them
      carry exactly that time to live. */
  lemma ExpiryClassesSetTtl(store: Store, key: string, text: string, expiry: int)
    requires expiry in {CourseByIdExpiry, AllCoursesExpiry, SearchExpiry}
    ensures var o := Write(true, store, key, Some(text), Some(expiry), false);
      o.ok && o.store[key] == Entry(text, Some(expiry))
  {
  }
}
