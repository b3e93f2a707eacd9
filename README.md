# Credential storage of kolabjar_absen, modelled in Dafny

The application keeps one credentials record (user, password, URL, API key)
in the browser's `localStorage`. It does so through two entry points in
`src/components/storage.js`:

- `saveCredentials` obfuscates each field and writes the four results, as a
  JSON object, to the fixed slot `kolabjar_absen_credentials`.
- `loadCredentials` reads that slot. It returns `null` when the slot is empty
  and otherwise de-obfuscates each field.

The obfuscation is `simpleEncrypt`. It puts the marker `__SALT__` in front of
the text and applies `btoa`. Its inverse, `simpleDecrypt`, applies `atob` and
removes one leading marker. Each of the two hands back its input unchanged
when the builtin throws. The transform has no key and gives no
confidentiality.

The project has five modules:

- `Wrappers` (`wrappers.dfy`): `Option`. It stands for JavaScript `null`, for
  a missing property and for a builtin that throws.
- `JsText` (`js_text.dfy`): JavaScript strings as sequences of UTF-16 code
  units (0..0xFFFF), bytes, and Latin-1 "binary strings".
- `Base64` (`base64.dfy`): the encoding of section 4 of RFC 4648 (what `btoa`
  produces) and the WHATWG HTML "forgiving-base64 decode" (what `atob` runs).
  Both are recursive functions over 3-byte and 4-symbol groups. The decoder
  is modelled in full. It removes ASCII whitespace, drops one or two trailing
  `=` only when the length is a multiple of four, rejects a length of
  4k+1 and any unit outside the alphabet, and discards the leftover bits of a
  final partial group whatever their value. The standard counts code points
  where the model counts code units. The outcome is the same either way,
  because an input holding any unit above 0xFF fails for both.
- `Obfuscation` (`obfuscation.dfy`): `btoa`, `atob`, the marker strip
  `replace(/^__SALT__/, '')`, `simpleEncrypt` and `simpleDecrypt`, all as
  functions.
- `CredentialStore` (`credential_store.dfy`): the record, a `Storage` class
  whose `items` map is the local store, the methods `SaveCredentials` and
  `LoadCredentials`, and the functions `Save` and `Load` that specify them.
  The store is passed to both methods as a parameter instead of being an
  ambient global.

A slot's content is abstracted as a `StoredValue`. `Serialized(blob)` is text
that JSON.parse turns into an object with the four fields, each a string or
missing. `Unparsable(text)` is text that JSON.parse rejects; it includes the
empty string. Loading an `Unparsable` slot gives `NoData` when the text is
empty, because the `!storedData` test comes first. Otherwise it gives
`ParseError`, the exception JSON.parse throws, which the source does not
catch.

Two behaviours of the code are easy to misread, and the model keeps both:

- A plain value that happens to be valid Base64 is not returned unchanged by
  `simpleDecrypt`: it is decoded. For example, `"abcd"` decodes to three
  bytes (`Obfuscation.PlainBase64TextIsDecoded`). Only input that `atob`
  rejects is returned raw.
- The marker is not used to detect a plain value. A decoded text that does
  not start with `__SALT__` is returned as decoded, not as the original
  input.

## Model

| member | source | states |
|---|---|---|
| `Base64.Encode` | src/components/storage.js:7 | the RFC 4648 encoding that `btoa` produces: for n bytes it has 4*ceil(n/3) units, a multiple of four, every unit an alphabet symbol except `=` in the last two positions; `DecodeEncode` is its inverse |
| `Base64.Symbol` | src/components/storage.js:7 | the symbol for each 6-bit value is in the alphabet and maps back to that value (Table 1 of RFC 4648) |
| `Base64.SymbolOfValue` | src/components/storage.js:16 | every alphabet symbol is the symbol of its own value, so Table 1 is a bijection |
| `Base64.ForgivingDecode` | src/components/storage.js:16-20 | the decode `atob` runs: it fails on any input holding a unit above 0xFF (neither whitespace, `=` nor a symbol) and yields at most three bytes per four input units; `DecodeEncode`, `DecodeUnpadded` and `DecodeIgnoresWhitespace` give its other properties |
| `Base64.RemoveWhitespace` | src/components/storage.js:16 | step 1 of the decode: the result holds no ASCII whitespace, keeps every other unit, adds none, and leaves whitespace-free input as it is |
| `Base64.RemoveWhitespaceConcat` | src/components/storage.js:16 | whitespace removal distributes over concatenation, so with the one-unit case it is the order-keeping filter |
| `Base64.DecodeEncode` | src/components/storage.js:7-16 | forgiving-base64 decode of the RFC 4648 encoding of any byte sequence gives back exactly those bytes |
| `Base64.DecodeUnpadded` | src/components/storage.js:16 | `atob` is lenient: the encoding with its `=` padding removed also decodes to the original bytes |
| `Base64.DecodeIgnoresWhitespace` | src/components/storage.js:16 | `atob` is lenient: ASCII whitespace anywhere in the input does not change the outcome |
| `Base64.DecodeEncodeBody` | src/components/storage.js:7-16 | the unpadded symbols of an encoding are all in the alphabet, their count is not 4k+1, and decoding them gives back the bytes |
| `Base64.GroupRoundTrip` | src/components/storage.js:7-16 | one 3-byte group split into four 6-bit symbols and joined again gives the three bytes; the first two or three symbols give back the first one or two bytes |
| `Obfuscation.BtoA` | src/components/storage.js:7 | `btoa` succeeds exactly when every unit is at most 0xFF |
| `Obfuscation.AtoB` | src/components/storage.js:16 | whatever `atob` returns is a binary string (all units at most 0xFF) |
| `Obfuscation.StripSalt` | src/components/storage.js:17 | if the text starts with the marker, the result is the text after that one marker; otherwise the text is unchanged |
| `Obfuscation.AtoBOfBtoA` | src/components/storage.js:7-16 | `atob(btoa(s)) == s` for every binary string `s` |
| `Obfuscation.SimpleEncrypt` | src/components/storage.js:3-12 | a binary string comes out as a binary string of 4*ceil((n+8)/3) units; a text with a unit above 0xFF comes back unchanged, with no error; `RoundTrip` and `EncryptShape` give the rest |
| `Obfuscation.SimpleDecrypt` | src/components/storage.js:14-22 | an input `atob` rejects, including any input with a unit above 0xFF, comes back unchanged, with no error; a decoded result is a binary string of at most three units per four of input |
| `Obfuscation.SaltUnits` | src/components/storage.js:6 | the marker is the eight code units of `__SALT__` |
| `Obfuscation.RoundTrip` | src/components/storage.js:3-22 | `simpleDecrypt(simpleEncrypt(t)) == t` for every string, including one starting with the marker and one with a unit above 0xFF |
| `Obfuscation.EncryptInjective` | src/components/storage.js:3-12 | two different texts never encrypt to the same stored value |
| `Obfuscation.EncryptShape` | src/components/storage.js:6-7 | for a binary string, the result is the RFC 4648 encoding of `"__SALT__" + t`, with only alphabet symbols and `=` |
| `Obfuscation.DecryptStripsOnce` | src/components/storage.js:16-17 | after a successful decode, one leading marker is removed if present; a decoded text without the marker is returned as decoded |
| `Obfuscation.StripSaltOnce` | src/components/storage.js:17 | a text starting with the marker twice keeps the second one |
| `Obfuscation.DecryptEmpty` | src/components/storage.js:16-17 | `atob('')` is `''`, so the empty string decrypts to the empty string |
| `Obfuscation.PlainBase64TextIsDecoded` | src/components/storage.js:14-22 | the plain value `"abcd"` is not handed back unchanged, because it is valid Base64 |
| `CredentialStore.Save` | src/components/storage.js:26-34 | after a save the slot holds the new encoded blob, whatever it held before; the key set gains only the slot; every other key keeps its value |
| `CredentialStore.Load` | src/components/storage.js:36-45 | the result is null exactly when the slot is absent or holds `''`; it is a parse error exactly when the slot holds other unparsable text |
| `CredentialStore.Storage.GetItem` | src/components/storage.js:37 | `getItem` returns the value under the key, or null when the key is absent |
| `CredentialStore.Storage.SetItem` | src/components/storage.js:33 | `setItem` binds the key to the value and changes nothing else |
| `CredentialStore.SaveCredentials` | src/components/storage.js:26-34 | the store after the call is `Save` of the store before it |
| `CredentialStore.LoadCredentials` | src/components/storage.js:36-45 | the result is `Load` of the current store; the method modifies nothing |
| `CredentialStore.EncodeRecord` | src/components/storage.js:27-32 | the blob a save builds has all four fields, and decoding it gives back every field, with `''` for a missing one |
| `CredentialStore.DecodeRecord` | src/components/storage.js:40-45 | for each of the four fields: missing gives `''`, and a value `atob` rejects is kept as stored |
| `CredentialStore.StorageKeyUnits` | src/components/storage.js:24 | the slot name is the code units of `kolabjar_absen_credentials` |
| `CredentialStore.SaveThenLoad` | src/components/storage.js:26-45 | loading after a save returns the saved record, with `''` for a missing field |
| `CredentialStore.SaveOverwrites` | src/components/storage.js:33 | after two saves a load returns exactly the second record; nothing of the first is merged in |
| `CredentialStore.SaveEmptyThenLoad` | src/components/storage.js:28-31 | saving a record with no fields loads back four empty strings |
| `CredentialStore.MissingFieldLoadsEmpty` | src/components/storage.js:41-44 | for each of the four fields, one missing from the stored object loads as `''` |
| `CredentialStore.CorruptFieldLoadsRaw` | src/components/storage.js:41-44 | for each of the four fields, a stored value that `atob` rejects loads unchanged, with no error |
| `CredentialStore.FreshStoreLoadsNothing` | src/components/storage.js:37-38 | loading from an empty store returns null |
| `CredentialStore.SaveTwiceLoadTwice` | src/components/storage.js:26-45 | through the methods: two saves, then two loads, give the second record both times; every other key is untouched |

## Left out

- The `console.error` diagnostics (src/components/storage.js:9 and 19): logging with no effect on any result.
- The text of `JSON.stringify` and `JSON.parse`: a slot holds a `StoredValue`, either a parsed four-field object or text that does not parse.
- Slot text that is valid JSON of another shape (a number, an array, `null`, or fields that are not strings) is not modelled. JSON.parse accepts it, and the source then reads properties of whatever it got.
- An argument to `saveCredentials` whose fields are not strings: a field is a string or missing, so the other falsy values that `||` maps to `''` are not modelled.
- `saveCredentials(null)` and `saveCredentials(undefined)` throw a TypeError when reading `credentials.user` (src/components/storage.js:28); the model's argument is always a record, so that exception is not modelled.
- `localStorage` quota and security errors, persistence across sessions and concurrent writers: the store is an in-memory map.
- Any claim of confidentiality: the transform is public and keyless.
