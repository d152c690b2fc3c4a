# Versioned handle identifier provider

A Dafny model of DSpace's `VersionedHandleIdentifierProvider`. This is the
component that gives persistent "handle" identifiers to repository objects
and ties them to the versions of an item:

- every version N of a work gets its own handle `canonical.N`;
- the canonical handle (`123456789/42`) points at the latest version;
- `canonical.1` is created for the first version lazily, once a second version exists;
- items restored from an archive (`register(dso, identifier)`) have their handles and version history rebuilt;
- deleting the latest version hands the canonical handle back to the version before it.

The project has six modules:

- `Wrappers` holds `Option`, `Result` and `Outcome` (pass or fail). Java's `null` is `None`. The provider's exceptions are an error value.
- `Objects` defines a DSpace object: an `Item` or any other kind, identified by its id.
- `HandleStrings` holds the pure identifier-string logic:
  - `getCanonical`, with the regular expression `.*/.*\.\d+` stated as a ghost predicate and proved equal to an executable test;
  - the `.N` suffix, with `Integer.parseInt` and `"" + n`;
  - `retrieveHandleOutOfUrl`, with Java's `split`, which drops trailing empty strings;
  - `supports(String)`;
  - `getCanonicalForm`.
- `HandleTable` is the handle service as a value. It has a map from handle to object, and for each object a list of its handles. A created handle is appended to its owner's list, and a handle moved by `modifyHandleDSpaceObject` is put at the front of its new owner's list. The first handle of the list is what `getHandle()` and `findHandle` answer. That a moved handle becomes this first handle is an assumption about the handle service, whose code is not part of this model. The module also covers `createHandle` with and without a supplied handle, and `modifyHandleDSpaceObject`. The invariant `Consistent` ties the two views together, and every operation is proved to keep it.
- `VersionHistory` is the version history service as a value. A history is a sequence of `(number, item)` versions. The module defines:
  - `getLatestVersion`: the highest number; on a tie, the version created first;
  - `getPrevious`: the highest number below the given one;
  - `isFirstVersion`: `false` for `null`;
  - `getVersion` and `findByItem`;
  - the decision `restoreItAsVersion` takes before moving the canonical handle.
- `VersionedHandleProvider` is the provider itself: a class whose fields are the handle table, the histories and each object's `dc.identifier.uri` values. Its methods are `mint`, both `register` overloads, `restoreItAsVersion`, `restoreItAsCanonical`, `makeIdentifierBasedOnHistory`, `delete`, `populateHandleMetadata` and `modifyHandleMetadata`. Each one updates those fields step by step, as the source updates its collaborators.

The model follows the code as written, with one exception: the test in
`restoreItAsVersion` at line 218 can never hold. It is listed under
"## Findings", modelled as written by `Provider.RestoreItAsVersionAsWritten`,
and corrected everywhere else.

The model keeps these behaviours of the code, which its comments
(lines 98, 109 and 393-395) do not spell out:

- `mint` of an item with a version history returns `handleId`, which is `null` (`None`), not the new `canonical.V` handle.
- The canonical handle is moved to a new version by `register(dso)`, not by `mint`.
- `register(dso)` rewrites the first version's `identifier.uri` to `canonical.1` with a literal `1` (line 117), not with the first version's number.
- `register(dso, identifier)` casts `dso` to `Item` before anything else, so it fails for every other kind of object.
- `register(dso, identifier)` looks up the history of whatever the identifier resolves to before it branches (line 153). An identifier that resolves to a non-item therefore makes every branch fail.

## Model

| member | source | states |
|---|---|---|
| HandleStrings.VersionPatternIff | dspace-api/src/main/java/org/dspace/identifier/VersionedHandleIdentifierProvider.java:428 | the executable test (digits after the last dot, a slash before it) holds exactly when the whole string matches `.*/.*\.\d+`, in both directions |
| HandleStrings.Canonical | dspace-api/src/main/java/org/dspace/identifier/VersionedHandleIdentifierProvider.java:436-445 | `getCanonical` returns a prefix of its input; its full contract is `CanonicalStripsVersion` |
| HandleStrings.CanonicalStripsVersion | dspace-api/src/main/java/org/dspace/identifier/VersionedHandleIdentifierProvider.java:426-445 | a string that does not match the version pattern is returned unchanged; from one that matches, exactly a dot and the trailing digits are removed, and a slash remains |
| HandleStrings.CanonicalSplitsVersioned | dspace-api/src/main/java/org/dspace/identifier/VersionedHandleIdentifierProvider.java:436-445 | a versioned string is its canonical form, a dot and a digit suffix |
| HandleStrings.CanonicalOfSuffixed | dspace-api/src/main/java/org/dspace/identifier/VersionedHandleIdentifierProvider.java:436-445 | `getCanonical(X + "." + N) == X` for any `X` with a slash and any digit string `N` |
| HandleStrings.CanonicalNotIdempotent | dspace-api/src/main/java/org/dspace/identifier/VersionedHandleIdentifierProvider.java:436-445 | `getCanonical` is not idempotent: `a/b.1.2` becomes `a/b.1`, then `a/b` |
| HandleStrings.NatToDigits | dspace-api/src/main/java/org/dspace/identifier/VersionedHandleIdentifierProvider.java:158 | `"" + n` is a non-empty digit string without a leading zero |
| HandleStrings.DigitsRoundTrip | dspace-api/src/main/java/org/dspace/identifier/VersionedHandleIdentifierProvider.java:212 | `Integer.parseInt` of the decimal form of `n` is `n` |
| HandleStrings.VersionedHandleRoundTrip | dspace-api/src/main/java/org/dspace/identifier/VersionedHandleIdentifierProvider.java:156-159 | `canonical.N`, for a canonical handle with a slash, matches the version pattern; `getCanonical` gives back the canonical handle and the suffix parses to `N` |
| HandleStrings.VersionedHandleHasNumber | dspace-api/src/main/java/org/dspace/identifier/VersionedHandleIdentifierProvider.java:212 | the identifier `register` builds as `canonical.(latest+1)` always has a suffix that parses, to `latest+1` |
| HandleStrings.VersionedHasVersionNumber | dspace-api/src/main/java/org/dspace/identifier/VersionedHandleIdentifierProvider.java:228 | an identifier that matches the version pattern has a number after its last dot that `parseInt` accepts |
| HandleStrings.VersionNumber | dspace-api/src/main/java/org/dspace/identifier/VersionedHandleIdentifierProvider.java:212 | `Integer.parseInt` of the digits after the last dot; printing the number back gives exactly those digits when they have no leading zero (or are a single digit), and only then |
| HandleStrings.DigitsPrintBack | dspace-api/src/main/java/org/dspace/identifier/VersionedHandleIdentifierProvider.java:212 | a digit string without a leading zero is the decimal form of the number it parses to |
| HandleStrings.PlainHandleIsNotVersioned | dspace-api/src/main/java/org/dspace/identifier/VersionedHandleIdentifierProvider.java:107 | a handle with a slash and no version suffix is never equal to any `X.N` handle built from a canonical handle, so making versioned handles never rebinds the canonical handle |
| HandleStrings.SplitJoin | dspace-api/src/main/java/org/dspace/identifier/VersionedHandleIdentifierProvider.java:345 | splitting at every `/` and joining the pieces with `/` gives back the string |
| HandleStrings.DropTrailingEmpty | dspace-api/src/main/java/org/dspace/identifier/VersionedHandleIdentifierProvider.java:345 | Java's `split` result is a prefix of the raw pieces that drops exactly the trailing empty strings |
| HandleStrings.RetrieveHandleOutOfUrl | dspace-api/src/main/java/org/dspace/identifier/VersionedHandleIdentifierProvider.java:340-348 | `null` exactly when the URL has no slash; otherwise two slash-free segments joined by one slash, the last non-empty |
| HandleStrings.RetrievedIsTailOfUrl | dspace-api/src/main/java/org/dspace/identifier/VersionedHandleIdentifierProvider.java:340-348 | the handle taken out of a URL is the end of the URL once trailing slashes are trimmed, and it is either that whole trimmed URL or preceded in it by a `/` |
| HandleStrings.RetrieveLastTwoSegments | dspace-api/src/main/java/org/dspace/identifier/VersionedHandleIdentifierProvider.java:340-348 | `host/a/b` with slash-free `a`, `b` and non-empty `b` yields exactly `a/b` (e.g. `http://hdl.handle.net/123/456` gives `123/456`) |
| HandleStrings.Supports | dspace-api/src/main/java/org/dspace/identifier/VersionedHandleIdentifierProvider.java:67-89 | true exactly when the identifier starts with `info:hdl`, `hdl` or `http://`, or contains a slash (so `retrieveHandleOutOfUrl` is non-null) |
| HandleStrings.CanonicalUrlPrefix | dspace-api/src/main/java/org/dspace/identifier/VersionedHandleIdentifierProvider.java:371-375 | the configured `handle.canonical.prefix` when set and non-empty, otherwise `http://hdl.handle.net/` |
| HandleStrings.CanonicalForm | dspace-api/src/main/java/org/dspace/identifier/VersionedHandleIdentifierProvider.java:365-378 | the URL is the prefix followed by the handle, and strictly longer than the handle |
| HandleStrings.CanonicalFormInjective | dspace-api/src/main/java/org/dspace/identifier/VersionedHandleIdentifierProvider.java:365-378 | two handles share a canonical URL exactly when they are equal |
| HandleTable.Resolve | dspace-api/src/main/java/org/dspace/identifier/VersionedHandleIdentifierProvider.java:285-295 | `resolve` yields an object exactly when the handle is bound, and then the bound object |
| HandleTable.FindHandle | dspace-api/src/main/java/org/dspace/identifier/VersionedHandleIdentifierProvider.java:297-306 | `lookup` yields one of the object's handles, and `null` exactly when it has none |
| HandleTable.FindHandleIffBound | dspace-api/src/main/java/org/dspace/identifier/VersionedHandleIdentifierProvider.java:297-306 | in a consistent table `lookup(o)` is non-null exactly when some handle resolves to `o`, and the handle it returns resolves to `o` |
| HandleTable.Create | dspace-api/src/main/java/org/dspace/identifier/VersionedHandleIdentifierProvider.java:383 | creating a handle binds it to the object, appends it to that object's handles and leaves other objects' handles alone |
| HandleTable.CreateKeepsConsistent | dspace-api/src/main/java/org/dspace/identifier/VersionedHandleIdentifierProvider.java:383 | creating an unused handle keeps the table consistent |
| HandleTable.CreateSupplied | dspace-api/src/main/java/org/dspace/identifier/VersionedHandleIdentifierProvider.java:385 | creating a supplied handle fails exactly when another object holds it; otherwise the handle resolves to the object, the object has a handle in a consistent table, and a handle it already held leaves the table as it was |
| HandleTable.Repoint | dspace-api/src/main/java/org/dspace/identifier/VersionedHandleIdentifierProvider.java:107 | repointing a bound handle rebinds it to the new object and changes no other binding; an unbound handle changes nothing |
| HandleTable.RepointKeepsConsistent | dspace-api/src/main/java/org/dspace/identifier/VersionedHandleIdentifierProvider.java:107 | repointing keeps the table consistent and makes the handle the new object's first handle, the one `getHandle()` returns |
| VersionHistory.Latest | dspace-api/src/main/java/org/dspace/identifier/VersionedHandleIdentifierProvider.java:214 | the latest version is in the history and no version has a higher number |
| VersionHistory.Previous | dspace-api/src/main/java/org/dspace/identifier/VersionedHandleIdentifierProvider.java:111 | the previous version has the highest number below `n`; `null` exactly when no version is below `n` |
| VersionHistory.IsFirstHasNoPrevious | dspace-api/src/main/java/org/dspace/identifier/VersionedHandleIdentifierProvider.java:112 | `isFirstVersion(history, v)` holds exactly when `v` is non-null, in the history, and has no version before it |
| VersionHistory.VersionOf | dspace-api/src/main/java/org/dspace/identifier/VersionedHandleIdentifierProvider.java:110 | the version of an item is a version of the history with that item; it exists exactly when the item is in the history |
| VersionHistory.FindByItem | dspace-api/src/main/java/org/dspace/identifier/VersionedHandleIdentifierProvider.java:102 | `findByItem` returns the first history holding the item, and `null` exactly when none does |
| VersionHistory.HistoryOf | dspace-api/src/main/java/org/dspace/identifier/VersionedHandleIdentifierProvider.java:264-270 | only an item is looked up: an item gets `findByItem`, any other object no history |
| VersionHistory.PreviousOfLatestExists | dspace-api/src/main/java/org/dspace/identifier/VersionedHandleIdentifierProvider.java:323-325 | in a history of two or more versions with distinct numbers, the latest version has a previous one, so `delete` does not dereference `null` |
| VersionHistory.AsWrittenRestoreNeverMovesCanonical | dspace-api/src/main/java/org/dspace/identifier/VersionedHandleIdentifierProvider.java:212-220 | with the latest version read after version N is added, `latest < N` never holds, so the canonical handle is never moved |
| VersionHistory.RestoreMovesCanonicalIff | dspace-api/src/main/java/org/dspace/identifier/VersionedHandleIdentifierProvider.java:217-220 | the corrected test holds exactly when N is above every number already in the history |
| VersionHistory.LatestKeptByOlderVersion | dspace-api/src/main/java/org/dspace/identifier/VersionedHandleIdentifierProvider.java:213-214 | adding a version that does not beat the latest leaves the latest version unchanged |
| VersionHistory.LatestTakenByNewerVersion | dspace-api/src/main/java/org/dspace/identifier/VersionedHandleIdentifierProvider.java:213-214 | adding a version numbered above all others makes it the latest |
| VersionHistory.RestoreKeepsCanonicalOnLatest | dspace-api/src/main/java/org/dspace/identifier/VersionedHandleIdentifierProvider.java:212-220 | with the corrected test, the restored version becomes the latest exactly when the canonical handle is moved to it; otherwise the latest version is unchanged |
| VersionHistory.NextVersionIsLatest | dspace-api/src/main/java/org/dspace/identifier/VersionedHandleIdentifierProvider.java:154-160 | with the corrected restore test, the version `latest+1` that `register` restores is moved to by the canonical handle and becomes the latest |
| VersionedHandleProvider.IdentifierExists | dspace-api/src/main/java/org/dspace/identifier/VersionedHandleIdentifierProvider.java:455-463 | the loop sets `identifierExists` exactly when the handle URL is among the item's `identifier.uri` values |
| VersionedHandleProvider.WithIdentifierUri | dspace-api/src/main/java/org/dspace/identifier/VersionedHandleIdentifierProvider.java:464-467 | afterwards the URL is present, the old values are kept in order, and at most one value is added, none when the URL was already there |
| VersionedHandleProvider.WithIdentifierUriIdempotent | dspace-api/src/main/java/org/dspace/identifier/VersionedHandleIdentifierProvider.java:448-467 | populating the metadata twice is the same as populating it once |
| VersionedHandleProvider.HistoryOfResolved | dspace-api/src/main/java/org/dspace/identifier/VersionedHandleIdentifierProvider.java:198-205 | an unbound identifier has no history; an identifier bound to a non-item is an error, and only that; an item gets `findByItem` of it, which when found is an existing non-empty history holding the item |
| VersionedHandleProvider.HandleUrl | dspace-api/src/main/java/org/dspace/identifier/VersionedHandleIdentifierProvider.java:451 | the URL `populateHandleMetadata` writes: the canonical form of the canonical part of the object's first handle; its contract is `HandleUrlOfVersionedHandle` |
| VersionedHandleProvider.HandleUrlOfVersionedHandle | dspace-api/src/main/java/org/dspace/identifier/VersionedHandleIdentifierProvider.java:451 | an object whose handle is `canonical.N` gets the URL of `canonical`, so every version of a work carries the canonical URL |
| VersionedHandleProvider.PreviousCanonical | dspace-api/src/main/java/org/dspace/identifier/VersionedHandleIdentifierProvider.java:396-398 | the canonical handle derived from the previous version exists exactly when there is a previous version and its item has a handle, and it is a prefix of that handle |
| VersionedHandleProvider.MovesCanonicalOnDelete | dspace-api/src/main/java/org/dspace/identifier/VersionedHandleIdentifierProvider.java:323 | `delete` moves the canonical handle only for an item with a history; with distinct version numbers that history then has a version before the latest, so line 325 never dereferences `null` |
| VersionedHandleProvider.BasedOnHistory | dspace-api/src/main/java/org/dspace/identifier/VersionedHandleIdentifierProvider.java:389-423 | the table `makeIdentifierBasedOnHistory` leaves exists exactly when the canonical handle can be derived; its bindings are the old ones with `canonical.V` bound to the new item and, when the previous version is the first and `canonical.P` was unbound, `canonical.P` bound to the previous item |
| VersionedHandleProvider.BasedOnHistoryKeepsConsistent | dspace-api/src/main/java/org/dspace/identifier/VersionedHandleIdentifierProvider.java:389-423 | the table `makeIdentifierBasedOnHistory` leaves is consistent, and the new item has a handle in it |
| VersionedHandleProvider.MintedHasHandle | dspace-api/src/main/java/org/dspace/identifier/VersionedHandleIdentifierProvider.java:257-283 | every path of `mint` that succeeds leaves a consistent table in which the object has a handle |
| VersionedHandleProvider.Minted | dspace-api/src/main/java/org/dspace/identifier/VersionedHandleIdentifierProvider.java:257-283 | the table `mint` leaves: unchanged for an object that has a handle; `mint` can fail only for an object without a handle that has a history |
| VersionedHandleProvider.Backfilled | dspace-api/src/main/java/org/dspace/identifier/VersionedHandleIdentifierProvider.java:123-129 | the table the backfill of `register(dso)` leaves: unchanged when there is no previous version or its item has a handle; it can fail only when that item has no handle |
| VersionedHandleProvider.MovedToVersion | dspace-api/src/main/java/org/dspace/identifier/VersionedHandleIdentifierProvider.java:105-129 | the table `register(dso)` leaves after minting: the canonical handle repointed to the item, then `Backfilled`; for a first version, just the repoint |
| VersionedHandleProvider.MovedCanonicalResolvesToVersion | dspace-api/src/main/java/org/dspace/identifier/VersionedHandleIdentifierProvider.java:105-129 | after `register(dso)` repoints the canonical handle and backfills the previous item, an existing canonical handle of the usual form resolves to `dso`: the backfill never rebinds it |
| VersionedHandleProvider.RestoredVersionedKeepsCanonicalOnLatest | dspace-api/src/main/java/org/dspace/identifier/VersionedHandleIdentifierProvider.java:162-182 | with the corrected restore test, restoring a versioned identifier into an existing history keeps a canonical handle that was on the latest version on the latest version of the extended history |
| VersionedHandleProvider.RestoredVersioned | dspace-api/src/main/java/org/dspace/identifier/VersionedHandleIdentifierProvider.java:162-182 | the state a restore of a versioned identifier leaves (lines 207-234): failure with nothing changed when the canonical handle names a non-item or the identifier is taken; otherwise a new one-version history with the canonical handle repointed, or the version appended to the canonical item's history with the canonical handle repointed exactly when the version is the newest (the corrected restore test); its partner is `RestoredVersionedKeepsCanonicalOnLatest` |
| VersionedHandleProvider.RestoreAsVersionKeepsCanonicalOnLatest | dspace-api/src/main/java/org/dspace/identifier/VersionedHandleIdentifierProvider.java:207-221 | with the corrected test, a canonical handle that resolved to the latest item still resolves to the latest item of the history after the restore |
| VersionedHandleProvider.Provider.CreateNewIdentifier | dspace-api/src/main/java/org/dspace/identifier/VersionedHandleIdentifierProvider.java:380-387 | without a supplied handle the fresh handle is created for `dso`; with one, `createHandle(dso, id)` either fails and leaves the table alone or its table is the new one; a returned handle resolves to `dso` |
| VersionedHandleProvider.Provider.ModifyHandleDSpaceObject | dspace-api/src/main/java/org/dspace/identifier/VersionedHandleIdentifierProvider.java:107 | the handle is rebound to the object and nothing else changes; an existing handle becomes the one `findHandle` returns for the object |
| VersionedHandleProvider.Provider.PopulateHandleMetadata | dspace-api/src/main/java/org/dspace/identifier/VersionedHandleIdentifierProvider.java:448-468 | fails, changing nothing, exactly when the item has no handle; otherwise the item's `identifier.uri` values become `WithIdentifierUri` of the canonical URL of its handle, and no other object's values change |
| VersionedHandleProvider.Provider.ModifyHandleMetadata | dspace-api/src/main/java/org/dspace/identifier/VersionedHandleIdentifierProvider.java:470-477 | the item keeps exactly one `identifier.uri`, the handle's canonical URL; no other object changes |
| VersionedHandleProvider.Provider.MakeIdentifierBasedOnHistory | dspace-api/src/main/java/org/dspace/identifier/VersionedHandleIdentifierProvider.java:389-423 | the table becomes the one `BasedOnHistory` gives: `canonical.V` resolves to `dso`, `canonical.P` is bound to the previous item only if the previous version is the first and `canonical.P` was unbound, and no other binding changes; fails, changing nothing, exactly when there is no previous version or its item has no handle; `handleId` is returned unchanged |
| VersionedHandleProvider.Provider.Mint | dspace-api/src/main/java/org/dspace/identifier/VersionedHandleIdentifierProvider.java:257-283 | an object with a handle gets it back and nothing changes; with no history the fresh handle is created and returned; with a history the result is `null` and the table becomes the `BasedOnHistory` table, failing exactly when it does not exist; after success the object has a handle |
| VersionedHandleProvider.Provider.MoveCanonicalToVersion | dspace-api/src/main/java/org/dspace/identifier/VersionedHandleIdentifierProvider.java:105-129 | the canonical part of the item's handle is repointed to the item; when the previous version is the first, its item's `identifier.uri` becomes exactly `canonical.1` and no other metadata changes; a previous item without a handle then gets the `BasedOnHistory` table of its own version, and the step fails exactly when that table does not exist |
| VersionedHandleProvider.Provider.BackfillPrevious | dspace-api/src/main/java/org/dspace/identifier/VersionedHandleIdentifierProvider.java:123-129 | a previous item without a handle gets the `BasedOnHistory` table of its version; fails, changing nothing, exactly when that table does not exist; a previous item with a handle changes nothing |
| VersionedHandleProvider.Provider.Register | dspace-api/src/main/java/org/dspace/identifier/VersionedHandleIdentifierProvider.java:91-139 | an object that already has a handle gets that handle back on success, and a non-item with a handle changes nothing; an object without a history ends up with the returned handle as its own, resolving to it, and an item gets that handle's canonical URL; an item with a history and no handle gets `null`; when `mint` fails the result is an error and nothing changes; an item with a history succeeds exactly when minting and moving the canonical handle succeed, ends with that table, `canonical.1` on the first version when the previous one is first, and its own canonical URL added; its canonical handle then resolves to it when that handle exists, contains a slash and has no version suffix |
| VersionedHandleProvider.Provider.CreateWithMetadata | dspace-api/src/main/java/org/dspace/identifier/VersionedHandleIdentifierProvider.java:209-210 | fails exactly when another object holds the identifier, leaving everything unchanged; otherwise the identifier resolves to `dso` and the canonical URL of `dso`'s handle is added to `dso`'s metadata |
| VersionedHandleProvider.Provider.RestoreItAsVersion | dspace-api/src/main/java/org/dspace/identifier/VersionedHandleIdentifierProvider.java:207-221 | fails exactly when the identifier belongs to another object, changing nothing; otherwise the identifier is bound to `dso`, version N is appended to the history, the canonical handle is repointed exactly when N beats every existing version (corrected test), and only `dso`'s `identifier.uri` gains the canonical URL of `dso`'s handle |
| VersionedHandleProvider.Provider.RestoreItAsVersionAsWritten | dspace-api/src/main/java/org/dspace/identifier/VersionedHandleIdentifierProvider.java:207-221 | the code as written: on success the identifier is bound and version N appended, but the table is left exactly as the identifier's creation made it, so the canonical handle is never moved |
| VersionedHandleProvider.Provider.RestoreItAsCanonical | dspace-api/src/main/java/org/dspace/identifier/VersionedHandleIdentifierProvider.java:223-234 | fails exactly when the identifier belongs to another object, changing nothing; otherwise a new history holding only version N of `dso` is added, the identifier is bound to `dso`, the canonical handle is repointed to `dso`, and only `dso`'s `identifier.uri` gains the canonical URL of `dso`'s handle |
| VersionedHandleProvider.Provider.RestoreNextVersion | dspace-api/src/main/java/org/dspace/identifier/VersionedHandleIdentifierProvider.java:154-160 | the restored identifier is `canonical.(latest+1)`; the step fails exactly when that handle belongs to another object, changing nothing; otherwise the version is appended, the table is the identifier's creation with the canonical handle repointed, both resolve to `dso`, and `dso` gains the canonical URL of its handle |
| VersionedHandleProvider.Provider.RestoreVersionedHandle | dspace-api/src/main/java/org/dspace/identifier/VersionedHandleIdentifierProvider.java:162-182 | fails, changing nothing, when the canonical handle resolves to a non-item or the identifier belongs to another object; otherwise it restores as the first version of a new history (canonical handle repointed) when the canonical handle is unbound or its item has no history, and into that item's history otherwise (canonical handle repointed exactly when the version is the newest), and `dso` gains the canonical URL of its handle |
| VersionedHandleProvider.Provider.RegisterIdentifier | dspace-api/src/main/java/org/dspace/identifier/VersionedHandleIdentifierProvider.java:141-196 | fails, changing nothing, for a non-item or an identifier resolving to a non-item; an unversioned identifier of an item with a history restores `identifier.(latest+1)`, failing exactly when that handle is taken, and gives the table, history, metadata and both resolutions; a versioned identifier is restored as `RestoreVersionedHandle` states; any other identifier is bound to `dso`, failing exactly when it is taken, histories untouched, and the canonical URL of `dso`'s handle is added |
| VersionedHandleProvider.Provider.Delete | dspace-api/src/main/java/org/dspace/identifier/VersionedHandleIdentifierProvider.java:313-338 | nothing changes unless `dso` is the latest item of a history with two or more versions; then the canonical handle of the previous item is repointed to it, failing (with nothing changed) exactly when there is no previous version or its item has no handle, and with distinct numbers only in the latter case |

## Left out

- Logging, Spring wiring and `LogManager` headers: they have no behaviour to model.
- `ConfigurationManager` lookups are left out. `handle.canonical.prefix` is the `urlPrefix` field of the provider. `getPrefix` (lines 354-363) only reads configuration and is not modelled.
- `supports(Class)` (lines 61-65) is a Java class-hierarchy test with no counterpart in the model.
- `reserve` (lines 237-246) is a single pass-through to `createHandle`, which `HandleTable.CreateSupplied` models.
- `delete(dso, identifier)` (lines 308-311) only calls `delete(dso)`, which is `Provider.Delete`.
- `turnOffAuthorisationSystem`, `restoreAuthSystemState` and `itemService.update` belong to authorization and persistence. They do not change the modelled state.
- The handle service's numbering of new handles is left out. `Mint` and `Register` take the handle `createHandle(dso)` would hand out as the parameter `freshHandle`, which must be unused.
- The collaborators' internals (SQL, caching) are left out. The handle service, the version history service and the item metadata are modelled as values with the semantics stated in `HandleTable` and `VersionHistory`.
- `versionService.createNewVersion` is modelled as appending a version. Its date and its comment string are left out.
- Exceptions become an error result. A failure raised midway through `register` or `restoreItAs*` in the source leaves the collaborators partly updated. The model states the state on success and on a failure before any change (for `register(dso)`, a failing `mint` leaves everything unchanged). Where a later step of `register(dso)` fails after earlier changes (moving the canonical handle, or `populateHandleMetadata`), the model states the result but not the partial state.
- Java regular expressions and `Integer.parseInt` are modelled on plain characters. The way `.` treats line terminators is not modelled. Integers are unbounded, so `parseInt` overflow on very long digit strings is not modelled.
- `HandleStrings.RetrieveHandleOutOfUrl`: inputs that contain a slash but leave fewer than two segments after `split` (`a/`, `/`) make the source throw `ArrayIndexOutOfBoundsException`. They are excluded by a precondition.
- `HandleStrings.Supports` carries the same precondition for inputs that reach `retrieveHandleOutOfUrl`.
- Transactions and concurrency (the check-then-create races in `makeIdentifierBasedOnHistory`) belong to the enclosing transaction and are not modelled.
- `HandleStrings.Canonical`: the function's own contract says only that the result is a prefix of the input. Its contract in terms of the regular expression is the lemma `CanonicalStripsVersion`, which keeps the existential pattern out of every caller's proof.
- `VersionedHandleProvider.Provider.RestoreItAsVersion` uses the corrected test (the restored number is above every number already in the history) in place of the test as written at line 218, which never holds. `Provider.RestoreItAsVersionAsWritten` models the code as written.
- `VersionedHandleProvider.Provider.RestoreNextVersion` goes through the corrected `RestoreItAsVersion`, so it states that the canonical handle moves to the restored version; the code as written leaves it where it was.
- `VersionedHandleProvider.Provider.RegisterIdentifier` goes through the corrected `RestoreItAsVersion` in the same way, for an unversioned identifier of an item with a history and for a versioned identifier whose canonical item has a history.
- `VersionedHandleProvider.RestoredVersioned` uses the corrected restore test for a version added to an existing history, so it repoints the canonical handle when the version is the newest; the code as written (line 218) leaves the canonical handle where it was.
- `VersionedHandleProvider.Provider.RestoreVersionedHandle` goes through the corrected `RestoreItAsVersion` for a versioned identifier whose canonical item has a history, so it states that the canonical handle moves when the version is the newest; the code as written leaves it where it was.
- `VersionHistory.Version` numbers are non-negative and unbounded. Java's `int` would overflow in `latest + 1` at line 156 when the latest number is `Integer.MAX_VALUE`; that overflow is not modelled.

## Findings

| source | as written | input that shows it | evidently intended | confidence | as-written member | corrected member |
|---|---|---|---|---|---|---|
| dspace-api/src/main/java/org/dspace/identifier/VersionedHandleIdentifierProvider.java:212-220 | `restoreItAsVersion` reads the latest version after version N has been added to the history, then moves the canonical handle only if that latest number is below N; the added version guarantees it is at least N, so the canonical handle is never moved | a history holding versions 1 and 2, canonical handle on version 2's item, restoring `canonical.3`: afterwards version 3 is the latest but the canonical handle still resolves to version 2's item | move the canonical handle when N is above every version already in the history (the latest read before adding N is below N), which keeps the canonical handle on the latest version (`RestoreAsVersionKeepsCanonicalOnLatest`); the test as written never holds (`VersionHistory.AsWrittenRestoreNeverMovesCanonical`) | high, not executed | VersionedHandleProvider.Provider.RestoreItAsVersionAsWritten | VersionedHandleProvider.Provider.RestoreItAsVersion |
