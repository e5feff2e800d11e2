# Phperclip, modelled in Dafny

Phperclip is a Laravel file-attachment library. A file is recorded as a
`phperclip_file_meta` row, and its original bytes are stored on a filesystem
disk at `<key>/<hash>`. The hash is the MD5 of the JSON of the file's option
array, with the options sorted by key at every level and `id` forced to the
file's key. A request for the file whose options carry a key other than
`id` names a *derivative*; options whose only key is `id` name the original
itself, since that `id` is overwritten. A derivative that is not stored yet is generated on first
request and kept. Files are placed into the *slots* of owning models through
`phperclip_clipping` rows. Query scopes on the two models locate files and
clippings. Two processor managers run the registered per-MIME-type
processors over a file.

The model covers:

- **`PhpArray`**: option arrays, `ksort`, `recursiveKeySort`, and
  `$array[$k] = $v`. An order-free meaning (`Contents`) is the reference
  against which "only reorders" and "order does not matter" are proved.
- **`Paths`**: `fileDirectory`, `generateHash`, `fileName` and `filePath`.
  These are shared by both revisions of the service.
- **`Storage`**: the disks, each a map from path to bytes.
- **`Deletion`**: the storage effect of `delete`.
- **`Phperclip`**: the later service (`src/Service.php`), as a class whose
  methods update the disks and the two tables.
- **`PhperclipLegacy`**: the earlier service
  (`src/Atrauzzi/Phperclip/Service.php`). It stages derivatives through a
  scratch file on a local disk and records uploads without clippings.
- **`Records`**: the two tables, with the schema's uniqueness constraints as
  table invariants.
- **`ClippingScopes` and `FileMetaScopes`**: the Eloquent scopes, as filters
  over table rows.
- **`ProcessPipeline`**: the aborting fold of
  `src/TippingCanoe/Phperclip/Processes/ProcessManager.php`.
- **`ProcessorDispatch`**: the non-aborting dispatch of
  `src/Atrauzzi/Phperclip/Processor/Manager.php`.

Where the system's documentation and its code differ, the model follows the
code:

- Every storage operation works on the service's currently selected disk,
  not on the disk recorded in the file row.
- Deleting a file does not delete its clippings.
- The later `save` ignores its owner argument, so the clipping it creates is
  unattached.
- Neither revision has an operation that attaches a file to a slot by
  vacating the slot.
- No processor is called while a derivative is generated; the hooks are
  to-dos at src/Service.php:248,253. A generated derivative is therefore a
  byte copy of the original.

## Model

| member | source | states |
|---|---|---|
| PhpArray.SortByKey | src/Service.php:323 | `ksort` yields an array strictly ascending by key, with the same entries (multiset) and the same key set |
| PhpArray.RecursiveKeySort | src/Service.php:321-331 | `ksort` followed by the rewriting loop returns exactly the canonical form `Canonical(a)` (the earlier revision's twin at src/Atrauzzi/Phperclip/Service.php:283-293 is the same code) |
| PhpArray.SortNestedValues | src/Service.php:325-327 | the `foreach` that replaces every array value by its recursively sorted copy returns exactly `CanonicalValues(a)`: keys and order unchanged, each value canonical |
| PhpArray.CanonicalOfSorted | src/Service.php:323-329 | sorting first and then recursively sorting every array value gives the canonical form |
| PhpArray.CanonicalSortedDeep | src/Service.php:321-331 | the canonical form has its keys strictly ascending at every nesting level |
| PhpArray.CanonicalContents | src/Service.php:323-329 | the canonical form only reorders: the same key => value pairs at every level |
| PhpArray.CanonicalValuesContents | src/Service.php:325-327 | replacing each nested value by its sorted copy keeps the array's key => value meaning |
| PhpArray.CanonicalValueMeaning | src/Service.php:326-327 | a recursively sorted nested value means the same as the original value |
| PhpArray.CanonicalIdempotent | src/Service.php:321-331 | sorting twice equals sorting once, and the result is still a well-formed array |
| PhpArray.CanonicalOrderIndependent | src/Service.php:321-331 | two arrays with the same pairs at every level, in any insertion order, have the same canonical form |
| PhpArray.SortedArrayUnique | src/Service.php:321-331 | two deep-sorted arrays with the same meaning are identical, so the canonical form is unique |
| PhpArray.AssignContents | src/Service.php:311 | after `$options['id'] = …`, `id` means the new value and every other key keeps its value |
| PhpArray.Assign | src/Service.php:311 | `$options['id'] = …` appends the entry when the key is absent; otherwise it replaces that key's entry where it stands, keeping the length and every other entry |
| PhpArray.AssignKeys | src/Service.php:311 | the assignment adds `id` to the keys and removes none |
| PhpArray.AssignWellFormed | src/Service.php:311 | the assignment keeps keys distinct at every level |
| Paths.NatToString | src/Service.php:269-270 | the key is rendered as a non-empty string of decimal digits |
| Paths.GenerateHash | src/Service.php:310-313 | the name is the digest of an array sorted by key at every level whose key => value meaning is the options with `id` set to the file key |
| Paths.FileName | src/Service.php:280-282 | the file name is the hash: the digest of a deep-sorted array meaning the options with `id` set to the file key |
| Paths.NatToStringInjective | src/Service.php:289-291 | distinct keys render as distinct strings, and equal strings come from equal keys |
| Paths.FileDirectory | src/Service.php:289-291 | the directory is the rendered file key, made of digits only, whatever the options |
| Paths.FileDirectoryInjective | src/Service.php:289-291 | two files share a directory exactly when they have the same key |
| Paths.FilePath | src/Service.php:268-273 | the path lies inside the file's directory for every options array, so the original and all derivatives share one directory |
| Paths.FilePathOutsideOtherDirectory | src/Service.php:268-291 | a path of file `g` lies inside the directory of file `f` exactly when the two keys are equal |
| Paths.GenerateHashOrderIndependent | src/Service.php:310-313 | option arrays with equal contents in any insertion order hash to the same name |
| Paths.GenerateHashIgnoresCallerId | src/Service.php:310-313 | a caller-supplied `id` entry is overwritten, so it never changes the name |
| Paths.IdOnlyOptionsNameOriginal | src/Service.php:311 | options whose only key is `id` give the original's own path, since `id` is overwritten by the file key |
| Paths.OtherKeyNamesDerivative | src/Service.php:310-313 | with a collision-free digest, options carrying a key other than `id` give a path different from the original's |
| Paths.FilePathOrderIndependent | src/Service.php:268-282 | equal option contents give the same path, and the original's empty options are never confused with a non-empty array |
| Paths.StagingPathDisjoint | src/Atrauzzi/Phperclip/Service.php:192 | the scratch path `phperclip/<id>` is never a file path and never inside any file's directory |
| Storage.ReadStream | src/Service.php:97 | a read succeeds exactly when the path is stored, returns the stored bytes, and otherwise fails naming the path |
| Storage.PutStream | src/Service.php:231 | a write fails exactly on a failing disk; otherwise it sets that one path and leaves every other disk as it was |
| Storage.WithDisk | src/Service.php:210 | replacing one disk's contents leaves the other disks and the failing set unchanged |
| Storage.Delete | src/Service.php:214 | deleting a stored path removes that path only, on that disk only; a path that is not stored throws "file not found" and changes nothing |
| Storage.DeleteDirectory | src/Service.php:210 | deleting a directory removes exactly the paths inside it, on that disk only |
| Storage.SelectDisk | src/Service.php:299-301 | the requested disk if truthy, else the selected disk if truthy, else the manager's default |
| Deletion.Discard | src/Service.php:207-217 | `delete` fails exactly when options are given and no blob is stored at their path, with "file not found" for that path; otherwise it only removes blobs, on the working disk only: the other disks and the failing set are unchanged, and every blob left holds its old bytes |
| Deletion.DiscardOriginalRemovesAll | src/Service.php:207-212 | deleting with empty options always succeeds and leaves no blob of the file, original or derivative, on that disk |
| Deletion.DiscardSparesOtherFiles | src/Service.php:207-217 | deleting any blob of one file leaves every blob of every other file unchanged, on every disk |
| Deletion.DiscardDerivativeOnly | src/Service.php:213-215 | deleting with non-empty options succeeds exactly when a blob is stored at their path, and then removes that blob and nothing else (the original's own blob when the only key is `id`) |
| Deletion.DiscardIdOnlyRemovesOriginal | src/Service.php:213-215 | as written: deleting with options whose only key is `id` removes the original's blob, although it takes the derivative branch and keeps the row |
| Deletion.DiscardKeepsOriginal | src/Service.php:213-215 | with a collision-free digest, deleting with options that carry a key other than `id` leaves the original's blob as it was |
| Deletion.DiscardIntended | src/Service.php:207-217 | as intended: options naming the original (none, or only `id`) remove the whole directory; with a collision-free digest any other options leave the original as it was |
| Records.RemoveFile | src/Service.php:211 | `$fileMeta->delete()` leaves exactly the other rows |
| Records.RemoveFileValid | src/Service.php:211 | removing a row keeps the file table's distinct keys and unique names |
| Records.AppendFile | database/migrations/2015_03_26_000001_create_file_meta_table.php:18-20 | a new unnamed row with a key above every existing key keeps keys distinct and names unique |
| Records.AppendClipping | database/migrations/2015_07_20_000001_create_clipping_table.php:18-40 | a new unowned clipping with a key above every existing key keeps keys distinct and leaves the unique index satisfied |
| Phperclip.ResolveIdempotent | src/Service.php:88-101 | after a successful request, asking again changes nothing and returns the same bytes |
| Phperclip.ResolveEffect | src/Service.php:88-101 | a request changes at most the requested blob, never which disks fail, and on success that blob holds exactly the returned bytes |
| Phperclip.DerivativeCopiesOriginal | src/Service.php:241-257 | a request for a missing derivative succeeds exactly when the original is stored and the disk accepts the write, and then returns a byte copy of the original |
| Phperclip.ResolveOrderIndependent | src/Service.php:88-101 | the same options in another order give the same outcome |
| Phperclip.ResolveAfterDelete | src/Service.php:207-217 | after the original is deleted, every request for the file fails with the original's path and changes nothing |
| Phperclip.ResolveIsolated | src/Service.php:207-217 | deleting blobs of one file never changes what a request for another file returns |
| Paths.PublicPrefix | src/Service.php:75-77 | the configured prefix of the selected disk, "" when none is configured; with no disk selected `array_get` returns the whole array and the concatenation raises the "Array to string conversion" error (the same code as src/Atrauzzi/Phperclip/Service.php:77-79) |
| Phperclip.Service.constructor | src/Service.php:30-41 | no disk is selected and the prefixes are the configured ones |
| Phperclip.Service.Exists | src/Service.php:108-114 | the count is positive exactly when a file of that name is joined to a clipping that the owner restriction admits |
| Phperclip.Service.UseDisk | src/Service.php:48-50 | a truthy drive becomes the working disk; a falsy one falls back to the default |
| Phperclip.Service.SetPublicPrefixes | src/Service.php:55-57 | the prefixes are replaced |
| Phperclip.Service.Disk | src/Service.php:299-301 | `getDisk()` is the selected disk when truthy, else the default disk |
| Phperclip.Service.GetResource | src/Service.php:88-101 | the new storage and the result are those of `Resolve`: the original or a stored derivative is read directly, and a missing derivative is generated |
| Phperclip.Service.SaveFromResource | src/Service.php:230-232 | the content is written to the path of the file and options, or the write error is returned and storage is unchanged |
| Phperclip.Service.GenerateDerivative | src/Service.php:241-257 | reading the original, writing it to the derivative's path and reading that back equals `Derive`: the original's bytes, or the first error |
| Phperclip.Service.GetPublicUri | src/Service.php:70-79 | the blob is ensured first, and its error is passed on; then, with no disk selected, the array-to-string error (storage keeps the effect of the first step); otherwise the prefix followed by the file path |
| Phperclip.TablesAfterSave | src/Service.php:132-148 | a new unnamed file and its one unowned clipping, each under the next key, keep both tables valid, and that clipping is the only one of the new file |
| Phperclip.Service.Save | src/Service.php:130-152 | `Saved`: the next file key is consumed; on success, one new file row with the type and selected disk, the original stored, and one unattached clipping in the slot, which is returned and is the only clipping of the new file; on failure, the row is removed, the write error is returned and nothing else changes |
| Phperclip.Service.SaveFromPath | src/Service.php:163-175 | as written: without an owner the `Clippable` type hint throws and nothing changes; with one, the outcome is `save`'s (`Saved`, returned clipping and failure case included) with the type "?!?!", never the detected type |
| Phperclip.Service.SaveFromPathDetected | src/Service.php:163-175 | as intended: without an owner the call throws and nothing changes; with one, the outcome is `save`'s with the detected type recorded |
| Phperclip.Service.SaveFromUri | src/Service.php:186-199 | the outcome is `save`'s (`Saved`) with the Content-Type value as the type: the returned clipping and new row on success, tables and storage unchanged on a failed write; the owner may be omitted |
| Phperclip.Service.Delete | src/Service.php:207-217 | the storage effect and error are those of `Discard`: the file's directory (empty options) or one stored blob goes, and a blob that is not stored throws "file not found" with storage unchanged; the row goes only with empty options; clippings stay |
| PhperclipLegacy.ResolveEffect | src/Atrauzzi/Phperclip/Service.php:90-103 | a request changes at most the requested blob and the scratch file; on success the blob holds the returned bytes, and the scratch file holds them too when a derivative was generated |
| PhperclipLegacy.StagingHarmless | src/Atrauzzi/Phperclip/Service.php:188-205 | staging never overwrites any file's blob other than the one requested |
| PhperclipLegacy.DerivativeCopiesOriginal | src/Atrauzzi/Phperclip/Service.php:188-205 | a request for a missing derivative succeeds exactly when the original is stored and both the local and the working disk accept writes, and then returns a byte copy of the original |
| PhperclipLegacy.ResolveOrderIndependent | src/Atrauzzi/Phperclip/Service.php:90-103 | the same options in another order give the same outcome |
| PhperclipLegacy.ResolveAfterDelete | src/Atrauzzi/Phperclip/Service.php:165-175 | after the original is deleted, every request for the file fails and changes nothing |
| PhperclipLegacy.Service.constructor | src/Atrauzzi/Phperclip/Service.php:23-43 | the local disk name starts as "local", no disk is selected, and the prefixes are the configured ones |
| PhperclipLegacy.Service.LocalDisk | src/Atrauzzi/Phperclip/Service.php:247-249 | the local disk name if truthy, else the working disk |
| PhperclipLegacy.Service.DiskFor | src/Atrauzzi/Phperclip/Service.php:247-249 | `getDisk($disk)` is the requested disk when truthy, else the selected disk when truthy, else the default disk |
| PhperclipLegacy.Service.Disk | src/Atrauzzi/Phperclip/Service.php:247-249 | `getDisk()` is the selected disk when truthy, else the default disk |
| PhperclipLegacy.Service.UseDisk | src/Atrauzzi/Phperclip/Service.php:50-52 | a truthy drive becomes the working disk; a falsy one falls back to the default |
| PhperclipLegacy.Service.SetPublicPrefixes | src/Atrauzzi/Phperclip/Service.php:57-59 | the prefixes are replaced |
| PhperclipLegacy.Service.SetLocalDiskName | src/Atrauzzi/Phperclip/Service.php:254-256 | a truthy name becomes the local disk |
| PhperclipLegacy.Service.GetResource | src/Atrauzzi/Phperclip/Service.php:90-103 | the new storage and the result are those of `Resolve` with staging |
| PhperclipLegacy.Service.SaveFromResource | src/Atrauzzi/Phperclip/Service.php:116-118 | the content is written to the path of the file and options, or the write error is returned and storage is unchanged |
| PhperclipLegacy.Service.GenerateDerivative | src/Atrauzzi/Phperclip/Service.php:188-205 | reading the original, staging it at `phperclip/<id>` on the local disk, copying the staged bytes to the derivative's path and reading it back equals `Derive`; the scratch file stays |
| PhperclipLegacy.Service.GetPublicUri | src/Atrauzzi/Phperclip/Service.php:72-81 | the blob is ensured first, and its error is passed on; then, with no disk selected, the array-to-string error (storage keeps the effect of the first step); otherwise the prefix followed by the file path |
| PhperclipLegacy.TablesAfterUpload | src/Atrauzzi/Phperclip/Service.php:141-144 | a new unnamed file under the next key, owned if an owner is given, keeps the tables valid |
| PhperclipLegacy.TablesAfterDelete | src/Atrauzzi/Phperclip/Service.php:167-170 | removing a file row together with its owner keeps the tables valid |
| PhperclipLegacy.Service.SaveFromUri | src/Atrauzzi/Phperclip/Service.php:129-157 | as written: with an owner, `files()` calls `morphMany` without its required name and throws before anything changes; without one, a new file row with its content stored under the caller's options, or on a failed write the row is removed and the error passed on |
| PhperclipLegacy.Service.SaveFromUriIntended | src/Atrauzzi/Phperclip/Service.php:129-157 | as intended: on success, a new file row, owned when an owner is given, with its content stored under the caller's options; on failure, the row and owner are removed and the error is passed on |
| PhperclipLegacy.Service.Delete | src/Atrauzzi/Phperclip/Service.php:165-175 | the storage effect and error are those of `Discard`; the row and its owner go only with empty options |
| ClippingScopes.SlotValues | src/Model/Clipping.php:70 | `(array)$slot` makes one slot a singleton list and null the empty list |
| ClippingScopes.ForClippable | src/Model/Clipping.php:44-62 | an owner instance or a truthy class with a truthy key keeps exactly that owner's clippings; every other argument throws |
| ClippingScopes.InSlot | src/Model/Clipping.php:69-71 | exactly the rows whose non-null slot is listed; an empty list keeps nothing |
| ClippingScopes.NotInSlot | src/Model/Clipping.php:78-80 | exactly the rows whose non-null slot is not listed; an empty list keeps every row |
| ClippingScopes.WithoutSlot | src/Model/Clipping.php:86-88 | exactly the rows with a null slot |
| ClippingScopes.Unattached | src/Model/Clipping.php:96-101 | exactly the rows with both owner columns null |
| ClippingScopes.Attached | src/Model/Clipping.php:109-114 | exactly the rows with both owner columns set |
| ClippingScopes.InIntegerSlot | src/Model/Clipping.php:130-132 | exactly the rows whose slot is one or more decimal digits |
| ClippingScopes.Named | src/Model/Clipping.php:141-146 | exactly the clippings whose file row has the given name |
| ClippingScopes.SlotScopesPartition | src/Model/Clipping.php:69-88 | with a non-empty slot list, each row is in exactly one of `inSlot`, `notInSlot` and `withoutSlot` |
| ClippingScopes.AttachmentScopes | src/Model/Clipping.php:96-114 | no row is both attached and unattached, and a row is in neither exactly when only one owner column is set |
| ClippingScopes.OneClippingPerSlot | database/migrations/2015_07_20_000001_create_clipping_table.php:33-40 | under the unique index, `forClippable(owner)->inSlot(slot)` finds at most one row |
| ClippingScopes.UniqueSlotsIndex | database/migrations/2015_07_20_000001_create_clipping_table.php:33-40 | two constrained rows with the same owner and slot are the same row |
| FileMetaScopes.Named | src/Model/FileMeta.php:69-71 | exactly the rows with the given name |
| FileMetaScopes.NamedAtMostOne | database/migrations/2015_03_26_000001_create_file_meta_table.php:20 | under the unique name column, `named(n)` finds at most one file |
| FileMetaScopes.OwnerFilter | src/Model/FileMeta.php:86-100 | a truthy class without a truthy key throws; the filter applies only when class and key are both non-empty |
| FileMetaScopes.Join | src/Model/FileMeta.php:84 | one (file, clipping) pair for each clipping of each file that the owner filter admits |
| FileMetaScopes.Pair | src/Model/FileMeta.php:84 | one pair per clipping of one file |
| FileMetaScopes.ClippedTo | src/Model/FileMeta.php:82-104 | throws exactly when the owner filter does; otherwise the join restricted to the owner |
| FileMetaScopes.ClippedToAgreesWithForClippable | src/Model/FileMeta.php:97-100 | for an owner instance, a file is joined to exactly the owner's clippings that `forClippable` finds |
| FileMetaScopes.CountClippedNamed | src/Service.php:108-114 | `named(n)->clippedTo(who)` has rows exactly when a file of that name has a clipping the owner filter admits |
| ProcessPipeline.Apply | src/TippingCanoe/Phperclip/Processes/ProcessManager.php:36-38 | a processor with no method named like the action, ignoring ASCII case, leaves the subject unchanged |
| ProcessPipeline.RegisteredMembers | src/TippingCanoe/Phperclip/Processes/ProcessManager.php:59-61 | exactly the processors listing the MIME type are selected, and none when no processor lists it |
| ProcessPipeline.Registered | src/TippingCanoe/Phperclip/Processes/ProcessManager.php:56-62 | the selection is no longer than the processor list, and every selected processor lists the MIME type |
| ProcessPipeline.RegisteredAppend | src/TippingCanoe/Phperclip/Processes/ProcessManager.php:59-61 | the filter keeps registration order |
| ProcessPipeline.ProcessorsFor | src/TippingCanoe/Phperclip/Processes/ProcessManager.php:56-62 | null exactly when no processors are configured; otherwise the filtered list |
| ProcessPipeline.RunStep | src/TippingCanoe/Phperclip/Processes/ProcessManager.php:33-44 | loop helper: one iteration applies the processor, then passes an exception on, stops with null on a non-file, or continues |
| ProcessPipeline.RunAppend | src/TippingCanoe/Phperclip/Processes/ProcessManager.php:33-44 | the run is a left fold: running a concatenation is running the first part and feeding its result to the second |
| ProcessPipeline.RunAbortsAtNonFile | src/TippingCanoe/Phperclip/Processes/ProcessManager.php:40-43 | once a processor returns a non-file, the result is null whatever processors follow |
| ProcessPipeline.RunStopsAtThrow | src/TippingCanoe/Phperclip/Processes/ProcessManager.php:36-38 | once a processor throws, the run throws that exception whatever processors follow |
| ProcessPipeline.RunIgnoresCase | src/TippingCanoe/Phperclip/Processes/ProcessManager.php:36 | action names that differ only in ASCII case give the same run, as `method_exists` and the call ignore case |
| ProcessPipeline.RunWithoutHooks | src/TippingCanoe/Phperclip/Processes/ProcessManager.php:36-38 | processors lacking the action leave a file as it is |
| ProcessPipeline.RunYieldsFile | src/TippingCanoe/Phperclip/Processes/ProcessManager.php:40-47 | a run that completes yields a file |
| ProcessPipeline.DispatchedUnmatched | src/TippingCanoe/Phperclip/Processes/ProcessManager.php:32-47 | with no processors, or none registered for the type, the file comes back unchanged |
| ProcessPipeline.ProcessManager.constructor | src/TippingCanoe/Phperclip/Processes/ProcessManager.php:13-16 | the processors are the given ones, null by default |
| ProcessPipeline.ProcessManager.Dispatch | src/TippingCanoe/Phperclip/Processes/ProcessManager.php:23-48 | the result is `Dispatched`: null for a non-file input, otherwise the fold over the registered processors, which stops at a non-file or at a processor's exception and passes that exception on; a non-null result is a file |
| ProcessPipeline.ProcessManager.RunAll | src/TippingCanoe/Phperclip/Processes/ProcessManager.php:33-44 | the `foreach` loop computes `Run` over the given processors |
| ProcessorDispatch.Manager.constructor | src/Atrauzzi/Phperclip/Processor/Manager.php:17-19 | the processors are the given ones, none by default |
| ProcessorDispatch.Manager.Dispatch | src/Atrauzzi/Phperclip/Processor/Manager.php:28-36 | processor `i` is called when it lists the file's type and has a method named like the action (ASCII case ignored) and no earlier call threw, and only then; only the last call can throw, and its exception is the one `dispatch` throws; every call carries the same action, resource, file and options; calls follow registration order, at most one per processor; no processors means no calls |
| ProcessorDispatch.Manager.CallHandlers | src/Atrauzzi/Phperclip/Processor/Manager.php:32-34 | the `foreach` loop makes exactly the calls of `Planned` and ends with its exception |
| ProcessorDispatch.PlannedCalls | src/Atrauzzi/Phperclip/Processor/Manager.php:32-34 | every planned call carries the dispatch's arguments and goes to a handling processor, in registration order, at most one each |
| ProcessorDispatch.PlannedOutcome | src/Atrauzzi/Phperclip/Processor/Manager.php:32-34 | only the last call can throw, and the loop ends with that call's exception |
| ProcessorDispatch.PlannedComplete | src/Atrauzzi/Phperclip/Processor/Manager.php:32-34 | every handling processor is called, unless a call threw: then every handling processor before the throwing one is |

## Left out

- I/O is outside the model. The HTTP `HEAD` request, `get_headers`, `fopen`, `finfo`, `tmpfile` and the stream copies are left out. `saveFromPath` and `saveFromUri` receive the content bytes and the detected or announced MIME type as parameters.
- Phperclip.Service.SaveFromUri: the type is the last `Content-Type` value as a string. A missing header, which PHP passes on as null, is not modelled.
- PhperclipLegacy.Service.SaveFromUri: `array_get($head, 'Content-Type')` may be an array when the header repeats. The model takes it as one string.
- `uniqid()` is a parameter (`uniq`) of the earlier revision's `getResource` and `generateDerivative`. Its uniqueness is not modelled, and scratch files are never removed, as in the code.
- `json_encode` followed by `md5` is one function parameter (`Digest`) of the services. Hash collisions are not reasoned about: a lemma that needs distinct arrays to get distinct names takes `Injective(digest)` as its hypothesis.
- `ksort` is modelled on string keys with ordinal order. PHP's comparison of mixed integer and numeric-string keys is not modelled.
- The storage driver is abstract. Every disk is a map from path to bytes, and a disk in the failing set throws on every write. A driver whose `putStream` returns false without throwing is not modelled. With such a driver, `generateDerivative` (src/Service.php:255) calls `getResource`, which finds the derivative still missing (src/Service.php:95-96) and calls `generateDerivative` again, without bound.
- The filesystem manager's default disk is a constant of each service object. The configuration it comes from is not part of this model, and neither is `config('phperclip.public_prefixes')`.
- Phperclip.Service.Save: the `disk` column is declared NOT NULL, yet `save` writes the selected disk, which may be null. MySQL rejects such an INSERT in strict mode and stores `''` with a warning otherwise. The model stores the nullable value and models neither.
- PhperclipLegacy.Service.SaveFromUri: the row is created without a `disk` value at all (src/Atrauzzi/Phperclip/Service.php:137-139). For the NOT NULL column MySQL rejects the INSERT in strict mode and stores `''` with a warning otherwise. The model records no disk and models neither.
- PhperclipLegacy.Service.SaveFromUriIntended: `$clippable->files()->create()` is modelled as an owner map from file key to owner. The relation `files()` returns is left to each owner class; the model assumes one that records a `FileMeta` for its owner (for instance a `morphToMany` of `FileMeta` through `phperclip_clipping`) and does not model its rows. As written, with `ClippableImpl::files()` or any `files()` that is the `MorphMany` of clippings the `Clippable` interface documents (src/Model/Clippable.php:7), that call fails (see Findings), so only the intended version records owners.
- `in_array` uses loose comparison. The model compares MIME types as exact strings.
- ClippingScopes.ForClippable, ClippingScopes.InSlot, ClippingScopes.NotInSlot, ClippingScopes.Named, FileMetaScopes.Named, FileMetaScopes.OwnerFilter, Records.UniqueNames and Records.UniqueSlots compare strings exactly, byte for byte. Under MySQL's default case-insensitive collation (`utf8_unicode_ci`), `where`, `whereIn` and the unique indexes also ignore letter case and trailing spaces. That comparison is not modelled. The at-most-one lemmas hold under it too, since a coarser equality only makes the unique indexes stricter.
- ClippingScopes.Named: the scope joins `phperclip_file_meta` without a `select` (src/Model/Clipping.php:141-145), so each row is read from `select *`, and the file's `id`, `created_at` and `updated_at` replace the clipping's own (both tables have `increments('id')` and `timestamps()`). The model returns the clipping rows untouched. The count in `exists` is unaffected.
- FileMetaScopes.ClippedTo: the scope joins `phperclip_clipping` without a `select` (src/Model/FileMeta.php:82-84), so the `FileMeta` models built from its rows carry the clipping's `id` and timestamps, and `getResource` or `delete` on one addresses the directory of the file whose key equals that clipping's key. The model returns the file rows untouched. The count in `exists` is unaffected.
- The query builder is modelled by what each scope keeps. SQL row order is not modelled beyond the join listing pairs file by file. `REGEXP '^[[:digit:]]+$'` is taken as the ASCII digits.
- `scopeRandom` (src/Model/Clipping.php:120-122) is left out because it is nondeterministic.
- The `getMimeType`, `getName` and `getDisk` getters of the file model are the fields `mimeType`, `name` and `disk` of `Records.FileMeta`.
- `validFileObject` is the predicate `ProcessPipeline.IsFile`. A processor's output is abstracted to a file upload, a stored file, or anything else.
- ProcessorDispatch.Manager.Dispatch: the processors' own effects on the shared resource are not modelled. The method returns the list of calls it makes and the exception, if any, that ends the loop.
- The service providers, the facade, the image rotation processor, the configuration files and the logic-free interfaces are not part of this model.
- Concurrent requests for the same derivative are not modelled.
- Deleting a file does not remove its clippings, and the model keeps them, as the code does.

## Findings

| source | as written | input that shows it | evidently intended | confidence | as-written member | corrected member |
|---|---|---|---|---|---|---|
| src/Service.php:163-175 | `saveFromPath` detects the MIME type with `finfo` and then records the literal `'?!?!'` instead | any file saved with an owner, e.g. a JPEG whose detected type is `image/jpeg`: the stored row has type `?!?!` | the detected type is recorded | not executed | Phperclip.Service.SaveFromPath | Phperclip.Service.SaveFromPathDetected |
| src/Service.php:207-217 | `delete` (and its twin at src/Atrauzzi/Phperclip/Service.php:165-175) tests `empty($options)` to choose between the whole file and one derivative, but the hash overwrites `id`, so options whose only key is `id` name the original's own path | `delete($f, ['id' => 7])`: the original's blob is deleted while the row and the derivatives stay, and the original can no longer be read | options naming the original delete the whole file; any other options delete one derivative and leave the original retrievable | not executed | Deletion.DiscardIdOnlyRemovesOriginal | Deletion.DiscardIntended |
| src/Atrauzzi/Phperclip/Service.php:141-142 | with an owner, `saveFromUri` calls `$clippable->files()->create()`, but `files()` (src/Model/ClippableImpl.php:9-11) calls `morphMany` without the morph name it requires (and `create` there would make a clipping, not the `FileMeta` `saveFromResource` expects) | `saveFromUri($uri, $owner)` for any owner using `ClippableImpl` (or whose `files()` is the documented `MorphMany` of clippings): the call throws before a row is created | the file is recorded as owned by `$clippable` and its content stored | not executed | PhperclipLegacy.Service.SaveFromUri | PhperclipLegacy.Service.SaveFromUriIntended |
