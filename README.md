# Library database core, modelled in Dafny

This project models the record store of the library-management administrator
application: `LibraryDatabase` in `logic/db_logic.py` keeps an ordered list of
`Library(name, city, address)` objects and a hashed administrator password, and offers
add, delete, edit, list, set-password, verify-password, load and save. It also models
the integer geometry of `center_window` in `logic/gui_utils.py`, which centres a window
on its parent or on the screen and clamps it to the screen.

Layout, one module per file:

- `results.dfy` (`Results`): `Option`, `Result`, `Outcome` and the exceptions the source raises.
- `hex.dfy` (`Hex`): bytes, `bytes.hex()` and `bytes.fromhex()`, and their round trip.
- `credential.dfy` (`Credential`): the stored form `salt_hex$key_hex`, `str.split`, and `verify_password` as a function of the stored string.
- `catalog.dfy` (`Catalog`): library records as values, the two uniqueness invariants, and the effect of add, delete and edit on the record list.
- `catalog_properties.dfy` (`CatalogProperties`): which operations keep which invariant, and a city edit that breaks one.
- `persistence.dfy` (`Persistence`): the database document as an abstract JSON value, how `load_data` parses it, what `save_data` writes, and the save-then-load round trip.
- `database.dfy` (`Database`): the classes `Library` and `LibraryDatabase`. Their methods update the list and the objects in place. Each method is proved against the functions of `Catalog`, `Credential` and `Persistence`. A ghost field `records` holds the list's contents as values. `Valid()` ties `records` to the objects, keeps the objects pairwise distinct, and keeps `passwordSet == (adminPassword != "")`.
- `geometry.dfy` (`Geometry`): `center_window`'s position computation.
- `scenarios.dfy` (`Scenarios`): callers that use only the contracts of `LibraryDatabase`.

How the outside world enters the model:

- PBKDF2-HMAC is a function parameter `kdf(algorithm, password, salt, iterations)`, always called with `"sha256"` and 600000. Being a Dafny function value, it is deterministic.
- `os.urandom(32)` is a `salt` parameter of length 32.
- `load_data` takes the value the JSON file decodes to.
- `save_data` returns the value it would hand to `json.dump`.
- `center_window` takes the `winfo_*` readings as integers.

Behaviour of the code that a reader may not expect, which the model reproduces:

- A failed load is not side-effect free. The list is emptied first, then records are appended until the failure. The old password is kept.
- A delete of a missing name raises the base `DatabaseException`.
- `verify_password` can raise. It raises `ValueError` when the stored string holds more than one `$`, and when either half is not hexadecimal.
- A city edit does not re-check `(city, address)` uniqueness.

## Model

| member | source | states |
|---|---|---|
| `Hex.ToHex` | logic/db_logic.py:171 | `bytes.hex()` writes exactly two lower-case hex digits per byte and nothing else, so its output never holds `$` |
| `Hex.FromHexToHex` | logic/db_logic.py:182-184 | `bytes.fromhex` of what `bytes.hex()` wrote gives back the original bytes |
| `Hex.FromHex` | logic/db_logic.py:183-184 | a decoded result has at most one byte per two characters of the text, and every character of an accepted text is ASCII whitespace or a hex digit, so any other character makes `bytes.fromhex` raise `ValueError` |
| `Hex.FromHexPair` | logic/db_logic.py:183-184 | a text that starts with two hex digits decodes to the byte they spell, followed by what the rest decodes to |
| `Hex.ToHexInjective` | logic/db_logic.py:171 | different byte strings have different hex texts |
| `Credential.Split` | logic/db_logic.py:182 | `str.split('$')` returns at least one piece, no piece holds `$`, and joining the pieces with `$` gives the input back |
| `Credential.SplitWithoutSeparator` | logic/db_logic.py:182 | a string without `$` splits into itself alone |
| `Credential.SplitAroundSeparator` | logic/db_logic.py:182 | `a + "$" + b`, with no `$` in `a` or `b`, splits into exactly `[a, b]`, so the two-way unpacking succeeds |
| `Credential.Stored` | logic/db_logic.py:171 | the stored string splits at `$` into exactly two pieces, the hex of the salt and the hex of the derived key |
| `Credential.Verify` | logic/db_logic.py:174-189 | an empty stored string, or one without `$`, gives false; more than one `$` raises `ValueError` for the unpacking, and a half that is not hexadecimal raises `ValueError` from `bytes.fromhex`; the only failures are `ValueError` |
| `Credential.VerifyStored` | logic/db_logic.py:160-189 | against the string stored for password `p` under salt `s`, a candidate is accepted exactly when its derived key under `s` equals `p`'s, so `p` itself is accepted |
| `Credential.StoredDistinctForDistinctSalts` | logic/db_logic.py:166-171 | two different salts give two different stored strings, even for the same password |
| `Credential.StoredIsWellFormed` | logic/db_logic.py:171-176 | a stored credential is non-empty and holds `$`, so it never reads as unset or as malformed |
| `Catalog.FirstNamed` | logic/db_logic.py:196-197 | the position found is the first record with the name; none is found exactly when no record has it |
| `Catalog.FirstNamedIs` | logic/db_logic.py:228-229 | a search that stops at the first record with the name stops at exactly that position |
| `Catalog.FirstClash` | logic/db_logic.py:129-137 | the add check reports nothing exactly when no record clashes, and otherwise reports the clash of some existing record |
| `Catalog.FirstClashAt` | logic/db_logic.py:129-137 | the add check reports the clash of the first clashing record: name before (city, address) |
| `Catalog.Add` | logic/db_logic.py:124-139 | an empty field raises; adding succeeds exactly when all fields are non-empty and no record has the name or the (city, address); success appends exactly one record at the end; each refusal names a record that really clashes |
| `Catalog.Delete` | logic/db_logic.py:191-200 | raises `DatabaseException` exactly when no record has the name; otherwise removes the first record with the name and keeps the others in order |
| `Catalog.Edit` | logic/db_logic.py:202-255 | empty arguments, an unknown edit type and a missing name each raise `ValueError`; a name edit is refused exactly when another record has the new name; an address edit is refused exactly when another record in the target's city has the new address; a city edit of an existing record always succeeds; on success only the chosen field of the first matching record changes |
| `CatalogProperties.AddPreservesUniqueness` | logic/db_logic.py:129-139 | a successful add keeps names unique and (city, address) pairs unique |
| `CatalogProperties.DeletePreservesUniqueness` | logic/db_logic.py:196-199 | a successful delete keeps both uniqueness invariants |
| `CatalogProperties.DeleteTwiceFails` | logic/db_logic.py:191-200 | with unique names, a delete removes exactly one record and deleting the same name again raises |
| `CatalogProperties.EditPreservesUniqueNames` | logic/db_logic.py:228-252 | every successful edit keeps names unique |
| `CatalogProperties.EditPreservesUniquePlaces` | logic/db_logic.py:241-252 | a successful name or address edit keeps (city, address) pairs unique |
| `CatalogProperties.CityEditCanBreakUniquePlaces` | logic/db_logic.py:238-240 | whenever another library has the target's address, moving the target to that library's city succeeds and breaks (city, address) uniqueness |
| `Persistence.LibrariesOf` | logic/db_logic.py:74 | iterating `libraries_data`: a list yields its elements; an empty string or empty object yields nothing; a non-empty string or object fails at its first element; `null`, a boolean or a number fails; every failure is `DatabaseLoadError` |
| `Persistence.ParseRecord` | logic/db_logic.py:76-80 | a non-object element raises `DatabaseLoadError`; an object missing `name`, `city` or `address` raises `InvalidDatabaseStructureError`; an element parses exactly when it is an object holding the three keys with string values, and the record holds exactly those three strings |
| `Persistence.ParseRecords` | logic/db_logic.py:74-81 | the loop appends one record per element, in order, up to the first element that fails; the failure is that element's error; with no failure every element was appended |
| `Persistence.ParseRecordsOfParsable` | logic/db_logic.py:74-81 | a list whose every element parses is appended entirely, without failure |
| `Persistence.ParseRecordsStopsAt` | logic/db_logic.py:74-81 | the loop stops at the first element that does not parse, with the elements before it appended |
| `Persistence.ParseDocument` | logic/db_logic.py:68-83 | a non-object document raises `DatabaseLoadError` and a missing `libraries_data` raises `InvalidDatabaseStructureError`, both with nothing appended; a `libraries_data` that cannot be iterated raises `DatabaseLoadError` with nothing appended; otherwise the records are those the loop appends; a record that fails raises that record's error, and with every record parsed a missing `administrator_password` raises `InvalidDatabaseStructureError`; the password is set exactly when every element parsed and `administrator_password` is present and holds a string, and then it is that string, whatever other keys the document holds; every failure is one of the two errors |
| `Persistence.Document` | logic/db_logic.py:112-116 | the value `save_data` writes is an object with exactly the keys `libraries_data` and `administrator_password`, the password string, and one element per record, in order, that parses back to that record |
| `Persistence.LoadSaved` | logic/db_logic.py:68-116 | loading the value `save_data` writes gives back the same records in the same order and the same password string |
| `Persistence.LoadRecordMissingKey` | logic/db_logic.py:74-97 | a record missing `name`, `city` or `address` at position k, after k records that parse, raises `InvalidDatabaseStructureError` with exactly those k records appended |
| `Persistence.LoadMissingKeys` | logic/db_logic.py:68-97 | a missing record key leaves the list empty, and a missing password key leaves the records appended; both raise `InvalidDatabaseStructureError` |
| `Geometry.SizeOrRequested` | logic/gui_utils.py:22-23 | `None` or 0 falls back to the window's requested size; any other given size is used |
| `Geometry.CentredStart` | logic/gui_utils.py:42-43 | the unclamped window centre is within half a unit of the reference rectangle's centre |
| `Geometry.CenterWindow` | logic/gui_utils.py:22-55 | the reference is the parent rectangle, or `(0, 0, screen)` without a parent; the result is never negative; a window no larger than the screen ends on screen; a centred window already on screen is not moved; otherwise each axis is clamped to the far edge, then to 0 |
| `Database.Library.constructor` | logic/db_logic.py:47-53 | a new library holds the given name, city and address |
| `Database.LibraryDatabase.constructor` | logic/db_logic.py:59-62 | a new database has no records and no password, and `password_set` is false |
| `Database.LibraryDatabase.LoadData` | logic/db_logic.py:64-83 | new objects replace the list, holding the records parsed before any failure; the password and `password_set` change only on success, so the flag keeps tracking a non-empty password |
| `Database.LibraryDatabase.AppendParsed` | logic/db_logic.py:74-81 | the loop appends one fresh object per element that parses, in order, and stops at the first that does not with that element's error, exactly as `Persistence.ParseRecords` says |
| `Database.LibraryDatabase.SaveData` | logic/db_logic.py:107-119 | the value written holds every record, in order, and the password; loading it gives both back |
| `Database.LibraryDatabase.AddLibrary` | logic/db_logic.py:124-139 | the records change as `Catalog.Add` says; success appends one fresh object and keeps the earlier ones; a refusal changes nothing |
| `Database.LibraryDatabase.GetReadableLibsInfo` | logic/db_logic.py:141-158 | one `(name, city, address)` triple per record, in list order; nothing changes |
| `Database.LibraryDatabase.UpdateAdminPassword` | logic/db_logic.py:160-172 | an empty password raises and changes nothing; otherwise the stored string is `hex(salt) + "$" + hex(key)` and `password_set` is true |
| `Database.LibraryDatabase.VerifyPassword` | logic/db_logic.py:174-189 | the result is `Credential.Verify` of the stored string, so false when it is empty or lacks `$`; nothing changes |
| `Database.LibraryDatabase.DeleteLibrary` | logic/db_logic.py:191-200 | the records change as `Catalog.Delete` says; success takes the first matching object out of the list and keeps the others in order |
| `Database.LibraryDatabase.RemoveAt` | logic/db_logic.py:198 | the list and the records lose exactly the entry at the position found, and the others keep their order |
| `Database.LibraryDatabase.OtherNamed` | logic/db_logic.py:231-235 | true exactly when an object other than the target has the new name |
| `Database.LibraryDatabase.OtherAtAddress` | logic/db_logic.py:242-250 | true exactly when an object other than the target, in the target's city, has the new address |
| `Database.LibraryDatabase.SetField` | logic/db_logic.py:236-251 | only the chosen field of the target object changes |
| `Database.LibraryDatabase.EditLibraryData` | logic/db_logic.py:202-255 | the records change as `Catalog.Edit` says; the same objects stay in the list, edited in place; a refusal changes nothing |
| `Scenarios.SetThenVerify` | logic/db_logic.py:160-189 | right after setting a password, verifying that password returns true; another candidate is accepted exactly when its derived key equals the password's |
| `Scenarios.PersistenceSession` | logic/db_logic.py:64-200 | on a database holding one record, loading the value it saves succeeds, the first delete of that name succeeds and the second raises `DatabaseException` |
| `Scenarios.EditSession` | logic/db_logic.py:124-255 | on a new database, adding `Central` twice refuses the second, and a city edit followed by a listing shows the one record with only its city changed |

## Left out

- File access is not modelled. This covers opening and writing the file, JSON text, `indent=4`, and the mapping of `FileNotFoundError`, `JSONDecodeError` and `OSError` to `DatabaseLoadError` and `DatabaseSaveError` (logic/db_logic.py:72-73, 84-91, 110-122). The source empties the list before opening the file, so these failures also leave it empty.
- `LoadingWindow`, every `logging` call, `setup_logging` and `webbrowser.open` are not modelled: they are presentation and diagnostics.
- The internals of PBKDF2-HMAC-SHA256 and `os.urandom` are foreign cryptographic calls. Both are parameters. The UTF-8 encoding of the password is folded into the `kdf` parameter. No claim is made that a wrong password is rejected beyond the derived keys being different.
- `Persistence.ParseRecord`: the source builds a `Library` from any JSON values found under `name`, `city` and `address` without checking their type. The model holds strings only, so it refuses a non-string value there with `DatabaseLoadError`.
- `Persistence.ParseDocument`: likewise, the source stores any JSON value found under `administrator_password`. The model refuses a non-string value with `DatabaseLoadError`, and it inherits the record refusal of `Persistence.ParseRecord`.
- `Database.LibraryDatabase.LoadData`: proved equal to `Persistence.ParseDocument`, so it refuses the same non-string values that the two lines above name.
- `Persistence.Json` holds integers only. JSON numbers with a fraction or exponent are not represented. No load outcome depends on them. Under `libraries_data` or as a record, indexing or iterating any number raises `TypeError`. Under `name`, `city`, `address` or `administrator_password` the source would store the number, but there the model refuses every non-string value, as the `Persistence.ParseRecord` and `Persistence.ParseDocument` lines above say, so a fraction changes nothing.
- Iterating a non-empty string or object under `libraries_data` yields strings. Indexing those raises `TypeError` at the first element. The model gives that outcome directly, without listing the elements.
- `center_window`'s `update_idletasks` and `geometry` calls are not modelled: they are tkinter side effects. The `winfo_*` readings are inputs, and the parent is an optional rectangle.
- `logic/gui_logic.py`, `logic/loading_window.py`, `administrator_gui.py` and `config.py` are not part of this model: they are windows, dialogs, process start-up and path constants. `resource_path` is defined in none of the files.
