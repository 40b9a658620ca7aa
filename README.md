# Grafana secure values, custom headers and versioned e2e selectors in Dafny

This project models four pieces of the Grafana repository and proves properties of them.

- **The secure-value store** (`pkg/storage/secret/store.go`). A `SecureValue` resource is
  flattened into a row of the `secure_value` table, and a row is read back into a
  resource. The store's `Create`, `Read`, `Update`, `Delete`, `List` and `Decrypt` run
  against that table. The table is a `seq<Row>` field of the class `Store.SecureStore`.
  Its invariant `Valid()` has these parts:
  - (namespace, name) is unique;
  - uid is unique;
  - every row reads back;
  - every stored ciphertext decrypts.

  The caller's object, which `Create` and `Update` change in place, is the class
  `Store.SecureValueObject`. The row codec (`Codec`) is made of pure functions:
  - `CleanAnnotations`;
  - `toSecureValueRow`, as `ToRow`;
  - `toK8s`, as `ToK8s`.
- **The default secret keeper** (`pkg/storage/secret/keeper.go`). It stores base64(salt ++ value).
  - `Base64` models Go's `base64.StdEncoding`: the standard alphabet with padding, section 4 of RFC 4648. It has Go's lenient decoder, which skips `\r` and `\n` and ignores the unused trailing bits.
  - `Keeper` models `simpleKeeper.Encrypt` and `Decrypt`.
- **`CustomHeaders`** (`pkg/util/req_headers.go`). This is the loop that pairs the `httpHeaderName…` settings of a data source with their decrypted `httpHeaderValue…` counterparts.
- **Versioned selector resolution** (`packages/grafana-e2e-selectors/src/selectors/resolver.ts`).
  - `processSelectors` walks a tree of selectors and assigns every property onto the target object, which is a `Resolver.SelectorGroup`.
  - Groups are resolved recursively into fresh objects.
  - For a version-keyed object it picks the value under the highest version the running Grafana version is at least. When there is no such version it falls back to the highest version.
  - `resolveSelectors` strips the prerelease suffix from the version and resolves the three top-level trees.

Nondeterministic inputs are parameters of the methods:
- the caller identity (`claims.From`), an `Option`;
- the uid (`uuid.NewString`);
- the random salt (`util.GetRandomString`), an `Option` whose `None` is its error;
- the clock readings (`time.Now`), in milliseconds.

Semver is abstract: `Resolver.Semver` holds a validity predicate and a `gte` relation. `IsOrder` states that `gte` is a total preorder on valid versions. The lemmas that need this take it as a precondition.

Modules:
- `Wrappers`: `Option` and `Result`.
- `Bytes`: Go strings as byte sequences.
- `Seqs`: `strings.HasPrefix`, `Contains`, `CutPrefix` and `ReplaceAll`.
- `Errors`: one constructor per distinct error of the Go code.
- `Base64`, `Json`, `Keeper`, `Codec` and `Store`: the secret store.
- `ReqHeaders` and `Resolver`.

## Model

| member | source | states |
|---|---|---|
| Codec.CleanAnnotations | pkg/storage/secret/store.go:58-67 | defines the annotation filter: the entries whose key is not one of the skipped keys, with their values unchanged; its properties (idempotence, a clean map is kept, the column round trip) are carried by `CleanAnnotationsIdempotent`, `CleanAnnotationsKeepsClean` and `AnnotationsColumnRoundTrip` |
| Codec.CleanAnnotationsIdempotent | pkg/storage/secret/store.go:58-67 | cleaning twice is cleaning once |
| Codec.CleanAnnotationsKeepsClean | pkg/storage/secret/store.go:83-88 | a map without any of the four skipped keys is returned as it is |
| Codec.LabelsColumn | pkg/storage/secret/store.go:143-149 | the labels column is "" exactly when there are no labels |
| Codec.ApisColumn | pkg/storage/secret/store.go:150-156 | the apis column is "" exactly when there are no apis |
| Codec.AnnotationsColumn | pkg/storage/secret/store.go:157-166 | the annotations column is "" exactly when nothing is left after cleaning, so also when only skipped keys were present |
| Codec.LeakError | pkg/storage/secret/store.go:168-179 | there is no error exactly when the plaintext occurs in no encoded column; otherwise the error is one of the three secret-in-column errors and names a column that contains it |
| Codec.ToRow | pkg/storage/secret/store.go:123-181 | an empty plaintext always succeeds; failure means the non-empty plaintext is a substring of one encoded column; on success the row carries every field of the resource (resource version as `updated`, 0 when unset), its plaintext does not leak, and salt, keeper and address are blank |
| Codec.ApisOfColumn | pkg/storage/secret/store.go:198-203 | "" decodes to the empty list; the only failure is malformed JSON |
| Codec.MapOfColumn | pkg/storage/secret/store.go:204-215 | "" decodes to the empty map; the only failure is malformed JSON |
| Codec.ToK8s | pkg/storage/secret/store.go:184-226 | reading a row fails exactly when a non-empty column does not decode; the plaintext is never filled in; `updated` becomes both the resource version and the update timestamp; every other field comes from the row |
| Codec.MapColumnRoundTrip | pkg/storage/secret/store.go:143-149 | decoding the labels column gives back the labels |
| Codec.ApisColumnRoundTrip | pkg/storage/secret/store.go:150-156 | decoding the apis column gives back the apis list |
| Codec.AnnotationsColumnRoundTrip | pkg/storage/secret/store.go:157-166 | decoding the annotations column gives back the cleaned annotations |
| Codec.ToRowCanonical | pkg/storage/secret/store.go:123-181 | every row `toSecureValueRow` produces is canonical: each column is "" or encodes a non-empty collection, and no skipped annotation is stored |
| Codec.ToK8sToRow | pkg/storage/secret/store.go:184-226 | reading back a flattened resource gives the resource with its annotations cleaned, its plaintext blank and its resource version set to `updated` |
| Codec.CanonicalReadable | pkg/storage/secret/store.go:184-226 | a canonical row always reads back |
| Codec.ToRowToK8s | pkg/storage/secret/store.go:123-226 | flattening what a canonical row reads back as gives the row again, with its secret material blanked |
| Codec.RebuildRowAsWritten | pkg/storage/secret/store.go:344-356 | the rebuilt row is the flattened object plus the salt, ciphertext, keeper, address and creation metadata of the stored row, and it fails exactly when flattening fails |
| Codec.RebuildRow | pkg/storage/secret/store.go:344-356 | the corrected rebuild never lets the supplied plaintext into an encoded column, and it agrees with the code as written whenever that does not leak |
| Codec.RebuildRowCanonical | pkg/storage/secret/store.go:344-356 | the row of the corrected rebuild is canonical |
| Codec.RebuildRowAsWrittenCanonical | pkg/storage/secret/store.go:344-356 | the row rebuilt as the code is written is canonical |
| Codec.RebuildAsWrittenLeaks | pkg/storage/secret/store.go:330-347 | as written, a resubmitted plaintext that occurs in the labels passes the check, while the corrected rebuild refuses it |
| Codec.LeakExample | pkg/storage/secret/store.go:330-347 | concrete case: stored plaintext `p`, resubmitted with the labels `{"p":"p"}`, is written into the labels column as written |
| Base64.Encode | pkg/storage/secret/keeper.go:39 | the encoding uses only alphabet characters and `=` |
| Base64.Decode | pkg/storage/secret/keeper.go:44 | decoding fails only with a corrupt-input error |
| Base64.DecodeOkIffValid | pkg/storage/secret/keeper.go:44-47 | decoding succeeds exactly on valid base 64: whole quanta, no misplaced padding, after dropping newlines |
| Base64.DecodeQuantaOkIff | pkg/storage/secret/keeper.go:44-47 | decoding newline-free input succeeds exactly when it is well formed |
| Base64.DecodeQuantaEncode | pkg/storage/secret/keeper.go:39-44 | the quantum decoder inverts the encoder on every byte string |
| Base64.DecodeEncode | pkg/storage/secret/keeper.go:39-44 | decoding an encoding gives back the bytes |
| Base64.EncodeIsValid | pkg/storage/secret/keeper.go:39 | every encoding is valid base 64 |
| Keeper.Encrypt | pkg/storage/secret/keeper.go:38-40 | encryption never fails; it yields valid base 64 that decodes to salt ++ value |
| Keeper.Decrypt | pkg/storage/secret/keeper.go:43-53 | invalid base 64 fails with a corrupt-input error; decoded text that does not start with the salt fails with "salt not found"; otherwise the result is the decoded text with exactly that prefix removed |
| Keeper.DecryptEncrypt | pkg/storage/secret/keeper.go:38-53 | decrypting an encryption with the same salt gives back the value, whatever the keeper and address hints |
| Keeper.RoutingHintsIgnored | pkg/storage/secret/keeper.go:37-53 | the keeper and address fields influence neither operation |
| Keeper.EmptySaltIsPlainDecode | pkg/storage/secret/keeper.go:48 | with an empty salt, decryption is plain base 64 decoding |
| Json.ParseQuoted | pkg/storage/secret/store.go:143-156 | a quoted string reads back as itself, whatever follows it |
| Json.ParseEncodeList | pkg/storage/secret/store.go:150-156 | the list encoding used for the apis column is inverted by its parser |
| Json.SortedKeys | pkg/storage/secret/store.go:143-149 | map keys are written once each, in strictly ascending byte order |
| Json.ParseEncodeEntries | pkg/storage/secret/store.go:143-166 | the entry list of a map encoding reads back as itself |
| Json.MapOfEntries | pkg/storage/secret/store.go:204-215 | unmarshalling entries with distinct keys builds exactly the map they came from |
| Json.ParseEncodeMap | pkg/storage/secret/store.go:143-166 | the map encoding used for labels and annotations is inverted by its parser |
| Seqs.CutPrefix | pkg/storage/secret/keeper.go:48 | `strings.CutPrefix` reports whether `s` starts with `p`, and if so `s` is `p` followed by the result |
| Seqs.ReplaceAll | pkg/util/req_headers.go:27 | defines `strings.ReplaceAll` for a non-empty pattern: a left-to-right scan replacing every non-overlapping occurrence; its properties are carried by `ReplaceAllPrefix` and `ReplaceAllAbsent` |
| Seqs.ReplaceAllPrefix | pkg/util/req_headers.go:27 | `strings.ReplaceAll` rewrites a leading occurrence of the pattern to the replacement |
| Seqs.ReplaceAllAbsent | pkg/util/req_headers.go:27 | `strings.ReplaceAll` leaves a string without the pattern unchanged |
| Store.Lookup | pkg/storage/secret/store.go:515-549 | `get` finds nothing exactly when no row has the key; a found row is in the table and has the key |
| Store.LookupFirst | pkg/storage/secret/store.go:535-547 | `get` returns the first matching row |
| Store.LookupUnique | pkg/storage/secret/store.go:515-549 | with unique keys, the key picks out exactly the row holding it |
| Store.Replace | pkg/storage/secret/store.go:380-393 | defines the UPDATE: the new row at every position holding its key, every other row unchanged; its properties (keys stay unique and then find the new row, the table stays well formed, writing back the stored row changes nothing) are carried by `ReplaceLookup`, `ReplaceKeepsTable` and `ReplaceWithSelf` |
| Store.ReplaceWithSelf | pkg/storage/secret/store.go:358-360 | writing back the stored row changes nothing |
| Store.ReplaceLookup | pkg/storage/secret/store.go:380-399 | replacing the row of an existing key keeps keys unique, and the key then finds the new row |
| Store.ReplaceKeepsTable | pkg/storage/secret/store.go:380-399 | such a replacement keeps the table well formed |
| Store.RemoveUid | pkg/storage/secret/store.go:414 | the DELETE keeps exactly the rows with another uid |
| Store.RemoveUidOfRow | pkg/storage/secret/store.go:405-423 | with unique uids, deleting a stored row's uid drops exactly that row |
| Store.DropKeepsTable | pkg/storage/secret/store.go:405-423 | dropping a row keeps the table well formed and frees its key |
| Store.Listed | pkg/storage/secret/store.go:435-483 | defines what `List` returns for the rows scanned so far: `toK8s` of every row of the namespace whose labels the selector accepts, in table order, or the first read error; its properties are carried by `ListedNext`, `ListedErrorSticks`, `ListedSound`, `ListedComplete` and `ListedOk`, and `SecureStore.List` is proved against it |
| Store.ListedNext | pkg/storage/secret/store.go:461-481 | one more row of the list scan: a row of another namespace is skipped, a row that does not read back ends the whole list with its error, and a readable row is appended when its labels match |
| Store.ListedErrorSticks | pkg/storage/secret/store.go:474-477 | once the scan fails, the list fails with that error |
| Store.ListedSound | pkg/storage/secret/store.go:435-483 | every listed item belongs to the namespace, has a blank value, matches the selector, and is the resource of some stored row |
| Store.ListedComplete | pkg/storage/secret/store.go:435-483 | every readable row of the namespace whose labels match is listed |
| Store.ListedOk | pkg/storage/secret/store.go:435-483 | listing a well-formed table never fails |
| Store.TruncateToSecond | pkg/storage/secret/store.go:259 | the creation time is the last whole second at or before the clock reading |
| Store.AppendKeepsTable | pkg/storage/secret/store.go:282-304 | inserting a well-formed row with a new key and a new uid keeps the table well formed |
| Store.StampRowOk | pkg/storage/secret/store.go:362-378 | the stamped row is well formed, because its ciphertext is either the stored one or a fresh sealing of the new plaintext |
| Store.Updated | pkg/storage/secret/store.go:317-402 | defines the effect of `Update`, as the code is written, on the table and the caller's object: "missing auth" and "not found" change nothing, and a found row goes on to `UpdatedFrom`; its properties are carried by the `Updated…` lemmas (`UpdatedKeepsTable`, `WrittenIsReplace`, `UpdatedRejects`, `UpdatedErrors`, `UpdatedWriteReadsBack`, `UpdatedObject`, `UpdatedKeepsSecret`, `UpdatedSealsNewValue`, `UpdatedNoOp`, `UpdatedNoLeak`, `UpdatedShape`, `WrittenIsStamped`, `UpdateResubmitLeaks`), and `SecureStore.Update` is proved against it |
| Store.UpdatedFrom | pkg/storage/secret/store.go:330-356 | defines `Update` once the stored row is read: a plaintext equal to the decrypted stored one is cleared from the object, the row is rebuilt from the cleared object with the leak check as written, and a rebuild error is returned with nothing written; `SecureStore.UpdateFound` is proved against it and the `Updated…` lemmas state its properties |
| Store.UpdatedWrite | pkg/storage/secret/store.go:358-399 | defines `Update` once the row is rebuilt: no new value and an unchanged row write nothing, a new value without a salt fails, a uid held by another row fails, and otherwise the sealed and stamped row is written over the key; `SecureStore.WriteRebuilt` is proved against it and `UpdatedWriteReadsBack`, `UpdatedSealsNewValue` and `UpdatedNoOp` state its properties |
| Store.UpdatedKeepsTable | pkg/storage/secret/store.go:317-402 | every update keeps the table well formed |
| Store.WrittenIsReplace | pkg/storage/secret/store.go:358-393 | an update that changes the table had a caller and a stored row, and it wrote the stamped rebuilt row over the key, a row whose uid no other row holds |
| Store.UpdatedRejects | pkg/storage/secret/store.go:318-328 | without a caller the update fails with "missing auth info", and without a row for the key it fails with "not found"; in both cases the object and the table are unchanged |
| Store.UpdatedErrors | pkg/storage/secret/store.go:317-402 | a failed update writes nothing and fails with one of the errors the code reports |
| Store.UpdatedWriteReadsBack | pkg/storage/secret/store.go:398-399 | an update that writes a row also succeeds, because the written row reads back |
| Store.UpdatedObject | pkg/storage/secret/store.go:330-342 | the plaintext is cleared from the caller's object exactly when it equals what the stored row decrypts to, and a successful result never holds a plaintext |
| Store.UpdatedKeepsSecret | pkg/storage/secret/store.go:348-376 | keeper, address, creation time and creator always stay as stored; unless a genuinely new plaintext is supplied, the salt and ciphertext stay too |
| Store.UpdatedSealsNewValue | pkg/storage/secret/store.go:362-378 | a new plaintext is sealed under the fresh salt and decrypts back to itself; the row carries `now` and the caller as updater |
| Store.UpdatedNoOp | pkg/storage/secret/store.go:358-378 | with no new value and a rebuilt row equal to the stored one, nothing is written and the stored resource is returned; any other successful update stamps `updated` and `updatedBy` |
| Store.UpdatedNoLeak | pkg/storage/secret/store.go:330-347 | a new plaintext, one that differs from the stored one, never ends up in an encoded column of the written row, because it is still on the object when the check of lines 168-179 runs |
| Store.UpdateResubmitLeaks | pkg/storage/secret/store.go:330-399 | as written, an update that resubmits the stored plaintext with labels containing it succeeds, and the row left under the key holds the plaintext in an encoded column |
| Store.IntendedRefusesResubmit | pkg/storage/secret/store.go:330-347 | the intended update `UpdatedIntended` refuses that request and writes nothing |
| Store.UpdatedIntended | pkg/storage/secret/store.go:330-347 | defines `Update` as intended: a request whose rebuilt row would hold the supplied plaintext, resubmitted or not, is refused with the leak error and writes nothing, and every other request does what `Updated` does; its properties are carried by `IntendedRefusesResubmit` and `UpdatedIntendedNoLeak` |
| Store.UpdatedIntendedNoLeak | pkg/storage/secret/store.go:317-402 | the intended update keeps the table well formed, and the plaintext the caller supplied, resubmitted or not, never ends up in an encoded column of the row it leaves under the key |
| Store.UpdatedShape | pkg/storage/secret/store.go:344-393 | a successful update either wrote nothing or wrote the stamped rebuilt row over the key |
| Store.WrittenIsStamped | pkg/storage/secret/store.go:344-399 | the row a successful update leaves under the key is the stored row (no-op) or the stamped rebuilt row, and the table is that row written over the key |
| Store.SecureValueObject.constructor | pkg/storage/secret/store.go:247 | the caller's object holds the resource it was given |
| Store.SecureValueObject.ClearIfResubmitted | pkg/storage/secret/store.go:330-342 | the object loses its plaintext exactly when it equals the decrypted stored one; the value still to seal is returned |
| Store.SecureStore.constructor | pkg/storage/secret/store.go:43-56 | a new store has an empty, well-formed table |
| Store.SecureStore.Get | pkg/storage/secret/store.go:515-549 | fails with "not found" exactly when no row has the key; otherwise returns the row `Lookup` finds |
| Store.SecureStore.Read | pkg/storage/secret/store.go:308-314 | an absent key gives "not found"; otherwise the result is `toK8s` of the stored row, with a blank value, and it always succeeds on a well-formed table |
| Store.SecureStore.List | pkg/storage/secret/store.go:435-483 | the result is the list scan of the table, whose soundness, completeness and success are the `Listed…` lemmas |
| Store.SecureStore.Decrypt | pkg/storage/secret/store.go:486-508 | an absent key gives "not found"; success returns the stored resource with the plaintext the keeper recovers from the row; on a well-formed table it always succeeds |
| Store.SecureStore.Delete | pkg/storage/secret/store.go:405-423 | an absent key gives "not found" and changes nothing; otherwise exactly the key's row is removed, the result is `true` and the table stays well formed |
| Store.SecureStore.Create | pkg/storage/secret/store.go:247-305 | all of the following: <br>• missing auth, a missing name and a missing value fail in that order, before any write <br>• the creation time is truncated to the second on the caller's object <br>• success happens exactly when flattening succeeds, a salt was drawn, and both key and uid are new <br>• success appends one row, with the caller as creator and updater and the ciphertext of the plaintext under the salt, which decrypts back and does not leak <br>• the result is that row read back, with a blank value |
| Store.SecureStore.Update | pkg/storage/secret/store.go:317-402 | the result, the new table and the caller's object are those of `Updated`, the specification of the code as written, including its leak check on the cleared object only; the table stays well formed |
| Store.SecureStore.UpdateFound | pkg/storage/secret/store.go:330-356 | once the stored row is found, clears a resubmitted plaintext from the caller's object and rebuilds the row; its result, new table and object are those `UpdatedFrom` gives for that stored row |
| Store.SecureStore.WriteRebuilt | pkg/storage/secret/store.go:358-399 | given the rebuilt row, writes nothing when neither the value nor the row changed, fails on a missing salt or a uid held by another row, and otherwise stores the stamped, re-encrypted row; the outcome is exactly `UpdatedWrite`'s |
| ReqHeaders.CustomHeaders | pkg/util/req_headers.go:16-34 | all of the following: <br>• a nil input gives a nil result, and any other input a map <br>• the header names are exactly the string values of the `httpHeaderName…` keys <br>• each value is read from the decrypted map under the key with `httpHeaderName` replaced by `httpHeaderValue` <br>• there are at most as many headers as qualifying keys <br>• when no two keys name the same header, every key's header holds its own value |
| ReqHeaders.Visit | pkg/util/req_headers.go:25-30 | defines one iteration of the loop: a key with the `httpHeaderName` prefix holding a string sets that header to the decrypted value of its paired key, and any other key is skipped; its properties are carried by `VisitBuilt`, `VisitNames`, `VisitSourced` and `VisitDistinct`, which `CustomHeaders` uses as its loop invariant |
| ReqHeaders.VisitBuilt | pkg/util/req_headers.go:24-31 | one iteration of the loop keeps the loop invariant |
| ReqHeaders.NamesBound | pkg/util/req_headers.go:28 | there are no more header names than qualifying keys |
| ReqHeaders.AddKey | pkg/util/req_headers.go:24-26 | a key qualifies exactly when it starts with `httpHeaderName` and holds a string; only a qualifying key adds its name |
| ReqHeaders.VisitDistinct | pkg/util/req_headers.go:24-31 | with distinct names, the loop sets each qualifying key's header to that key's value |
| ReqHeaders.PairedKeys | pkg/util/req_headers.go:27 | the header stored under `httpHeaderName<suffix>` takes its value from `httpHeaderValue<suffix>`, for every suffix that does not itself contain `httpHeaderName` |
| ReqHeaders.VisitNames | pkg/util/req_headers.go:24-30 | after one more key, the header names are exactly the names of the qualifying keys visited so far |
| ReqHeaders.VisitSourced | pkg/util/req_headers.go:24-30 | after one more key, every header still holds the value of some visited key that names it |
| Resolver.Get | packages/grafana-e2e-selectors/src/selectors/resolver.ts:38 | reading a present key yields a value stored under that key |
| Resolver.AssignAppends | packages/grafana-e2e-selectors/src/selectors/resolver.ts:24 | assigning a new key appends the property last |
| Resolver.AssignKeys | packages/grafana-e2e-selectors/src/selectors/resolver.ts:24 | assigning an existing key keeps the keys and their order |
| Resolver.AssignOthers | packages/grafana-e2e-selectors/src/selectors/resolver.ts:24 | assignment changes no other property |
| Resolver.AssignGet | packages/grafana-e2e-selectors/src/selectors/resolver.ts:24 | after an assignment the key holds the new value |
| Resolver.InsertPerm | packages/grafana-e2e-selectors/src/selectors/resolver.ts:28 | insertion adds the key and loses nothing |
| Resolver.SortPerm | packages/grafana-e2e-selectors/src/selectors/resolver.ts:28 | the sort is a permutation of the keys |
| Resolver.SortDescending | packages/grafana-e2e-selectors/src/selectors/resolver.ts:28 | the sort orders valid versions highest first |
| Resolver.SortVersions | packages/grafana-e2e-selectors/src/selectors/resolver.ts:28 | the sort throws exactly when there are two or more keys and one is not a version |
| Resolver.Pick | packages/grafana-e2e-selectors/src/selectors/resolver.ts:26-38 | defines what a version-keyed object resolves to: the value under the version the scan picks from the keys sorted highest first, or the sort's or scan's throw; its properties are carried by `VersionedPicksBest` and `VersionedErrors`, and `ResolveVersioned` is proved against it |
| Resolver.Scan | packages/grafana-e2e-selectors/src/selectors/resolver.ts:29-36 | the version the scan picks is one of the sorted keys |
| Resolver.ScanOk | packages/grafana-e2e-selectors/src/selectors/resolver.ts:29-36 | with a valid running version and valid keys the scan never throws |
| Resolver.ScanBest | packages/grafana-e2e-selectors/src/selectors/resolver.ts:29-36 | on keys sorted highest first, the scan picks the highest key the running version is at least, or the highest key when there is none |
| Resolver.VersionedPicksBest | packages/grafana-e2e-selectors/src/selectors/resolver.ts:26-38 | a version-keyed object resolves to the value stored under that best version |
| Resolver.VersionedErrors | packages/grafana-e2e-selectors/src/selectors/resolver.ts:26-38 | such an object throws exactly when one of its keys is not a version or the running version is not one |
| Resolver.Resolve | packages/grafana-e2e-selectors/src/selectors/resolver.ts:22-42 | defines what `processSelectors` stores for one value: a group is processed into a fresh object, a version-keyed object goes to `Pick`, and anything else is kept; its properties are carried by `GroupResolves`, `VersionedPicksBest`, `VersionedErrors` and `LeavesKept` |
| Resolver.Processed | packages/grafana-e2e-selectors/src/selectors/resolver.ts:16-46 | defines the object `processSelectors` has built on its target after the first `n` properties, or the first throw; its properties are carried by `ProcessedStep`, `ProcessedErrorSticks` and `ProcessedFresh`, and `ProcessSelectors` is proved against it |
| Resolver.LeavesKept | packages/grafana-e2e-selectors/src/selectors/resolver.ts:39-41 | strings, functions and empty objects are stored as they are |
| Resolver.ProcessedStep | packages/grafana-e2e-selectors/src/selectors/resolver.ts:17-46 | one iteration of the loop: an earlier throw stays a throw; otherwise the next key is assigned its resolution, or its exception propagates |
| Resolver.ProcessedErrorSticks | packages/grafana-e2e-selectors/src/selectors/resolver.ts:17-46 | once a property throws, the whole call throws |
| Resolver.ProcessedFresh | packages/grafana-e2e-selectors/src/selectors/resolver.ts:16-46 | for an input whose keys are distinct, as a JavaScript object's are, processing into a fresh object succeeds exactly when every property resolves; the object then holds every input key, in input order, each with its resolution |
| Resolver.GroupResolves | packages/grafana-e2e-selectors/src/selectors/resolver.ts:22-24 | for a group with distinct keys, its resolution is a fresh object with the group's keys in order, each holding its member's resolution, and it exists exactly when every member resolves |
| Resolver.SelectorGroup.constructor | packages/grafana-e2e-selectors/src/selectors/resolver.ts:24 | the `{}` passed for a group is an object without properties |
| Resolver.SelectorGroup.Set | packages/grafana-e2e-selectors/src/selectors/resolver.ts:24 | `selectors[key] = v` on the target object |
| Resolver.ResolveVersioned | packages/grafana-e2e-selectors/src/selectors/resolver.ts:28-38 | the sort, the scan with `break` and the read compute the version-keyed resolution |
| Resolver.ProcessSelectors | packages/grafana-e2e-selectors/src/selectors/resolver.ts:11-49 | the call succeeds exactly when processing the properties in order succeeds; it then returns the target object, whose properties are the processed ones |
| Resolver.IndexFrom | packages/grafana-e2e-selectors/src/selectors/resolver.ts:66 | the first position from `from` on that satisfies `c`, or the end |
| Resolver.StripPrerelease | packages/grafana-e2e-selectors/src/selectors/resolver.ts:66 | defines `.replace(/\-.*/, '')`: the first `-` and the rest of its line are removed; its contract states that the result is never longer and equals the input exactly when the input has no `-`, and `StripOneLine` gives the one-line case |
| Resolver.StripOneLine | packages/grafana-e2e-selectors/src/selectors/resolver.ts:66 | on a one-line version everything from the first `-` on is dropped; a version without `-` is kept whole |
| Resolver.TopLevelResolves | packages/grafana-e2e-selectors/src/selectors/resolver.ts:60-66 | the top-level object resolves exactly when the three trees do, to exactly the keys `pages`, `components` and `apis` in that order |
| Resolver.ResolveSelectors | packages/grafana-e2e-selectors/src/selectors/resolver.ts:58-67 | the result exists exactly when the three trees resolve against the stripped version; it is then a fresh object with `pages`, `components` and `apis` holding their resolutions |

## Left out

- SQL plumbing. The templates, sessions, row scanning and `RowsAffected` are replaced by the in-memory table. An insert affects one row exactly when the key and the uid are new. Any other insert fails with `DuplicateKey`.
- The update template `secure_value_update.sql` is not part of this model. The model assumes these two things:
  - the UPDATE matches on (namespace, name) and overwrites every column;
  - the primary key on uid rejects a uid that another row holds.
- `History` panics in the source. The TODO print in `Decrypt` is output only. There is no authorization gate and no audit event in the code.
- Label-selector semantics are an abstract predicate on label maps. `None` stands for `labels.Everything()`.
- `encoding/json` is replaced by a JSON-shaped encoding that is injective:
  - map keys are written in ascending byte order, as Go writes them;
  - `\"` and `\\` are escaped;
  - these Go escapes are not modelled:
    - control characters (`\n`, `\r`, `\t`, `\u00XX`);
    - the HTML escapes of `<`, `>` and `&`;
    - U+2028 and U+2029;
    - the replacement of invalid UTF-8.

  The leak check looks for the plaintext in the encoded strings. So for a plaintext that holds one of those characters, the verdicts of the model and of Go can differ.
- `metav1` and `utils.MetaAccessor` are plain record fields. Some Go distinctions are not modelled:
  - a nil map versus an empty map (so the non-nil label map of `toK8s` is not stated);
  - time zones;
  - `time.Time` precision beyond milliseconds.
- Go's `int64` overflow of millisecond timestamps is not modelled: integers are unbounded.
- Store.SecureStore.Create: does not state that the salt has 10 characters, because the salt is a parameter standing for `util.GetRandomString(10)`.
- Store.UpdatedNoLeak: covers only a plaintext supplied in the same call, because that is the only plaintext the source checks (store.go:169). An update without a value, or one that resubmits the stored value, can write labels, annotations or apis that contain the stored plaintext. The intended update `UpdatedIntended` also refuses a resubmitted plaintext, but it does not decrypt the stored one to check an update that supplies no value.
- Store.SecureStore.Decrypt: does not state what is returned beside an error. The Go code returns the object together with the error, but callers only use the error.
- Store.SecureStore.List: does not state in its own contract that a well-formed table lists without error. `Store.ListedOk` states that about the specification `Listed`.
- Keeper: the `SecretKeeper` interface is not modelled, because `ProvideSecretKeeper` always returns `simpleKeeper`. The store calls that keeper directly.
- Resolver.SortVersions: the order of equal versions is not stated. Stability is only visible through which of two equal-version keys is read.
- Resolver.ProcessSelectors: does not state what the target object holds after a thrown error. The model only states that the call throws.
- Some JavaScript behaviour is not modelled:
  - `typeof null === 'object'`;
  - prototype keys;
  - the ordering of integer-like keys by `Object.keys`.

  In the model, objects are sequences of distinct keys in insertion order. Functions are opaque leaves.
- Objects are stored by reference in JavaScript. The model stores the resolved group's fields as a value, so aliasing between the nested object and the parent is not captured.
- `versionedPages`, `versionedComponents` and `versionedAPIs` are defined in other modules of the package. They are parameters of `ResolveSelectors`.
- Semver is abstract. `semver.rcompare` and `semver.gte` are one `gte` relation, assumed to be a total preorder on valid versions. An exception that `semver` throws is modelled as `Err(InvalidVersion)`.
- The inputs of `CustomHeaders` are values, so neither input map can be modified.

## Findings

| source | as written | input that shows it | evidently intended | confidence | as-written member | corrected member |
|---|---|---|---|---|---|---|
| pkg/storage/secret/store.go:330-347 | `Update` clears `obj.Spec.Value` when it equals the decrypted stored plaintext. It does so before calling `toSecureValueRow`, so the raw-secret check of lines 168-179 sees an empty value and is skipped | stored plaintext `p`; the caller resubmits `p` with labels `{"p":"p"}`; the row is written with the plaintext inside its labels column | the supplied plaintext is kept out of labels, annotations and apis on every write, as the check of lines 168-179 intends | not executed | Store.UpdateResubmitLeaks | Store.UpdatedIntendedNoLeak |

`Store.SecureStore.Update` follows the code as written. `Store.UpdatedIntended` is the corrected specification: it refuses every request whose rebuilt row would hold the plaintext the caller supplied, and it agrees with the code as written on every other request. The codec-level halves of the same finding are `Codec.RebuildAsWrittenLeaks` and `Codec.LeakExample` (as written) and `Codec.RebuildRow` (corrected).
