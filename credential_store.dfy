/** Saving and loading the one credentials record the application keeps in
    the browser's string-keyed local store. Each field is obfuscated on the
    way in and de-obfuscated on the way out; the record always occupies one
    fixed slot and is replaced wholesale on every save. */
module CredentialStore {
  import opened Wrappers
  import opened JsText
  import Obfuscation

  /** The name of the slot that holds the record. */
  const STORAGE_KEY: JSString := Ascii("kolabjar_absen_credentials")

  /** The four fields of a credentials record, each of type T. */
  datatype Record<T> = Record(user: T, password: T, url: T, apiKey: T)

  /** The record handed back by a load: every field present. */
  type Credentials = Record<JSString>

  /** A record whose fields may be missing: the argument of a save, and the
      object parsed from a stored blob. */
  type PartialCredentials = Record<Option<JSString>>

  /** What a slot of the store holds, as seen through JSON.parse: text that
      parses to an object with the four (optional, string) fields, or text
      that is not JSON at all (the empty string among it). */
  datatype StoredValue =
    | Serialized(blob: PartialCredentials)
    | Unparsable(text: JSString)

  /** The outcome of a load: null, a record, or the exception JSON.parse
      raises on a slot whose text it cannot parse. */
  datatype LoadResult = NoData | Loaded(credentials: Credentials) | ParseError

  /** `field || ''` for a field that is a string or missing. */
  function OrEmpty(field: Option<JSString>): (r: JSString)
    ensures field.None? ==> r == []
    ensures field.Some? ==> r == field.value
  {
    field.GetOr([])
  }

  /** The record with every missing field given as the empty string. */
  function Filled(c: PartialCredentials): (r: Credentials)
  {
    Record(OrEmpty(c.user), OrEmpty(c.password), OrEmpty(c.url), OrEmpty(c.apiKey))
  }

  /** The object `saveCredentials` serialises: every field present, holding
      the obfuscated form of the field or of '', so that decoding it gives
      back every field. */
  function EncodeRecord(c: PartialCredentials): (blob: PartialCredentials)
    ensures blob.user.Some? && blob.password.Some? && blob.url.Some? && blob.apiKey.Some?
    ensures DecodeRecord(blob) == Filled(c)
  {
    Obfuscation.RoundTrip(OrEmpty(c.user));
    Obfuscation.RoundTrip(OrEmpty(c.password));
    Obfuscation.RoundTrip(OrEmpty(c.url));
    Obfuscation.RoundTrip(OrEmpty(c.apiKey));
    Record(Some(Obfuscation.SimpleEncrypt(OrEmpty(c.user))),
           Some(Obfuscation.SimpleEncrypt(OrEmpty(c.password))),
           Some(Obfuscation.SimpleEncrypt(OrEmpty(c.url))),
           Some(Obfuscation.SimpleEncrypt(OrEmpty(c.apiKey))))
  }

  /** The record `loadCredentials` builds from a parsed object: each field,
      or '' when it is missing, de-obfuscated. A missing field gives '' and
      a field atob rejects is kept as it was stored. */
  function DecodeRecord(blob: PartialCredentials): (c: Credentials)
    ensures blob.user.None? ==> c.user == []
    ensures blob.password.None? ==> c.password == []
    ensures blob.url.None? ==> c.url == []
    ensures blob.apiKey.None? ==> c.apiKey == []
    ensures blob.user.Some? && Obfuscation.AtoB(blob.user.value).None? ==> c.user == blob.user.value
    ensures blob.password.Some? && Obfuscation.AtoB(blob.password.value).None? ==> c.password == blob.password.value
    ensures blob.url.Some? && Obfuscation.AtoB(blob.url.value).None? ==> c.url == blob.url.value
    ensures blob.apiKey.Some? && Obfuscation.AtoB(blob.apiKey.value).None? ==> c.apiKey == blob.apiKey.value
  {
    Obfuscation.DecryptEmpty();
    Record(Obfuscation.SimpleDecrypt(OrEmpty(blob.user)),
           Obfuscation.SimpleDecrypt(OrEmpty(blob.password)),
           Obfuscation.SimpleDecrypt(OrEmpty(blob.url)),
           Obfuscation.SimpleDecrypt(OrEmpty(blob.apiKey)))
  }

  /** The store after a save: the slot holds the new blob whatever it held
      before, and every other key is as it was. */
  function Save(items: map<JSString, StoredValue>, c: PartialCredentials): (r: map<JSString, StoredValue>)
    ensures STORAGE_KEY in r && r[STORAGE_KEY] == Serialized(EncodeRecord(c))
    ensures r.Keys == items.Keys + {STORAGE_KEY}
    ensures forall k :: k in items && k != STORAGE_KEY ==> r[k] == items[k]
  {
    items[STORAGE_KEY := Serialized(EncodeRecord(c))]
  }

  /** What a load returns for a given store. Null exactly when the slot is
      absent or holds the empty string. */
  function Load(items: map<JSString, StoredValue>): (r: LoadResult)
    ensures r == NoData <==> STORAGE_KEY !in items || items[STORAGE_KEY] == Unparsable([])
    ensures r == ParseError <==> STORAGE_KEY in items && items[STORAGE_KEY].Unparsable? && items[STORAGE_KEY].text != []
  {
    if STORAGE_KEY !in items then NoData
    else match items[STORAGE_KEY]
      case Unparsable(text) => if text == [] then NoData else ParseError
      case Serialized(blob) => Loaded(DecodeRecord(blob))
  }

  /** The browser's local store: a mutable map from string keys to the
      values held in them. */
  class Storage {
    var items: map<JSString, StoredValue>

    /** A fresh, empty store. */
    constructor ()
      ensures items == map[]
    {
      items := map[];
    }

    /** `getItem`: the value under `key`, or null when there is none. */
    method GetItem(key: JSString) returns (v: Option<StoredValue>)
      ensures key in items ==> v == Some(items[key])
      ensures key !in items ==> v == None
    {
      if key in items {
        v := Some(items[key]);
      } else {
        v := None;
      }
    }

    /** `setItem`: `key` now holds `value`; nothing else changes. */
    method SetItem(key: JSString, value: StoredValue)
      modifies this
      ensures items == old(items)[key := value]
    {
      items := items[key := value];
    }
  }

  /** `saveCredentials`: writes the obfuscated record to the slot. */
  method SaveCredentials(storage: Storage, credentials: PartialCredentials)
    modifies storage
    ensures storage.items == Save(old(storage.items), credentials)
  {
    var dataToStore := Record(
      Some(Obfuscation.SimpleEncrypt(OrEmpty(credentials.user))),
      Some(Obfuscation.SimpleEncrypt(OrEmpty(credentials.password))),
      Some(Obfuscation.SimpleEncrypt(OrEmpty(credentials.url))),
      Some(Obfuscation.SimpleEncrypt(OrEmpty(credentials.apiKey))));
    storage.SetItem(STORAGE_KEY, Serialized(dataToStore));
  }

  /** `loadCredentials`: reads the slot, changing nothing. */
  method LoadCredentials(storage: Storage) returns (r: LoadResult)
    ensures r == Load(storage.items)
  {
    var storedData := storage.GetItem(STORAGE_KEY);
    if storedData.None? || storedData.value == Unparsable([]) {
      return NoData;
    }
    match storedData.value
    case Unparsable(_) =>
      r := ParseError;
    case Serialized(parsedData) =>
      r := Loaded(Record(
        Obfuscation.SimpleDecrypt(OrEmpty(parsedData.user)),
        Obfuscation.SimpleDecrypt(OrEmpty(parsedData.password)),
        Obfuscation.SimpleDecrypt(OrEmpty(parsedData.url)),
        Obfuscation.SimpleDecrypt(OrEmpty(parsedData.apiKey))));
  }

  // ---------------------------------------------------------------------
  // Properties
  // ---------------------------------------------------------------------

  /** The slot name's code units, spelled out. */
  lemma StorageKeyUnits()
    ensures STORAGE_KEY == [0x6B, 0x6F, 0x6C, 0x61, 0x62, 0x6A, 0x61, 0x72, 0x5F, 0x61, 0x62, 0x73, 0x65,
                            0x6E, 0x5F, 0x63, 0x72, 0x65, 0x64, 0x65, 0x6E, 0x74, 0x69, 0x61, 0x6C, 0x73]
  {
  }

  /** Save then load gives back the saved fields, '' for a missing one. */
  lemma SaveThenLoad(items: map<JSString, StoredValue>, c: PartialCredentials)
    ensures Load(Save(items, c)) == Loaded(Filled(c))
  {
  }

  /** A second save replaces the first entirely: no field of the first
      record survives. */
  lemma SaveOverwrites(items: map<JSString, StoredValue>, a: PartialCredentials, b: PartialCredentials)
    ensures Load(Save(Save(items, a), b)) == Loaded(Filled(b))
  {
    SaveThenLoad(Save(items, a), b);
  }

  /** Saving a record with no fields loads back four empty strings. */
  lemma SaveEmptyThenLoad(items: map<JSString, StoredValue>)
    ensures Load(Save(items, Record(None, None, None, None))) == Loaded(Record([], [], [], []))
  {
    SaveThenLoad(items, Record(None, None, None, None));
  }

  /** Every field missing from the stored object loads as the empty string. */
  lemma MissingFieldLoadsEmpty(items: map<JSString, StoredValue>)
    requires STORAGE_KEY in items && items[STORAGE_KEY].Serialized?
    ensures Load(items).Loaded?
    ensures var blob, c := items[STORAGE_KEY].blob, Load(items).credentials;
      && (blob.user.None? ==> c.user == [])
      && (blob.password.None? ==> c.password == [])
      && (blob.url.None? ==> c.url == [])
      && (blob.apiKey.None? ==> c.apiKey == [])
  {
  }

  /** Every stored field that atob rejects loads unchanged, without error. */
  lemma CorruptFieldLoadsRaw(items: map<JSString, StoredValue>)
    requires STORAGE_KEY in items && items[STORAGE_KEY].Serialized?
    ensures Load(items).Loaded?
    ensures var blob, c := items[STORAGE_KEY].blob, Load(items).credentials;
      && (blob.user.Some? && Obfuscation.AtoB(blob.user.value).None? ==> c.user == blob.user.value)
      && (blob.password.Some? && Obfuscation.AtoB(blob.password.value).None? ==> c.password == blob.password.value)
      && (blob.url.Some? && Obfuscation.AtoB(blob.url.value).None? ==> c.url == blob.url.value)
      && (blob.apiKey.Some? && Obfuscation.AtoB(blob.apiKey.value).None? ==> c.apiKey == blob.apiKey.value)
  {
  }

  /** On a fresh store, a load returns null. */
  lemma FreshStoreLoadsNothing()
    ensures Load(map[]) == NoData
  {
  }

  /** A caller's view of the two methods: save one record, save another,
      load twice. Both loads give the second record, no field of the first
      survives, and every other key of the store is as it was. */
  method SaveTwiceLoadTwice(storage: Storage, first: PartialCredentials, second: PartialCredentials)
    returns (r1: LoadResult, r2: LoadResult)
    modifies storage
    ensures r1 == Loaded(Filled(second)) && r2 == r1
    ensures storage.items.Keys == old(storage.items).Keys + {STORAGE_KEY}
    ensures forall k :: k in old(storage.items) && k != STORAGE_KEY ==> storage.items[k] == old(storage.items)[k]
  {
    SaveCredentials(storage, first);
    SaveCredentials(storage, second);
    SaveOverwrites(old(storage.items), first, second);
    r1 := LoadCredentials(storage);
    r2 := LoadCredentials(storage);
  }
}
