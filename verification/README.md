# cli-common, modelled and verified in Dafny

cli-common is a Go library for command-line tools. Its package `credstore` keeps credentials
under `<service>/<profile>/<key>` in a memory map or a platform keyring, writes several keys as
one bundle with rollback, and scrubs secrets out of text. Its package `cache` keeps one JSON
envelope per resource, replaced by renaming a temporary file. This project models that behaviour
and proves properties of it for all inputs, all patterns of failures and all interleavings.
Nothing was executed.

`dafny verify dfyconfig.toml` checks everything.

| module | what it models |
|---|---|
| Text, Hex | byte strings, their order, occurrences, sorted listings; Base16 (section 8 of RFC 4648) |
| Ref | credential refs and the escape of arbitrary bytes into a ref segment |
| Keychain | the parser of `security -g` output |
| Redaction, Redactor | what redaction means; the scan, sort and sweep that compute it; the secret list, headers, leak assertion |
| Items | stored items as maps, and how two of them compare |
| Backend | the storage contract, the memory backend, the adapter over a platform keyring or the Secret Service |
| Bundle, Store | what bundle operations promise; the store and its phases (validate, scan, snapshot, write, roll back) |
| History | every store operation as a step of one abstract map, and whole runs of steps |
| Behaviour | what a client sees of each operation, in plain text, bytes and errors |
| PairMap | the map from (profile, key) to value that a store is while no backend call fails |
| Sessions | clients over more than one store, and over the whole stack down to the Secret Service |
| BundleRace | concurrent no-overwrite bundle writes, one backend call per step; the code's calls as those of such a write |
| Cache, CacheRace | paths and reading; many writers interleaved, failing and crashing |
| CacheWrite | one write call by call, as one of those writers; sequences of writes |
| SecretService | the escaped collection path; items behind collection and item locks |

How the Go program is rendered:

- A Go string is a sequence of bytes; it is a `string` whose chars stand for bytes. The codecs,
  which take bytes apart, use chars below 256.
- The interface `backend` is the datatype `Backend.AnyBackend` over its two implementations; the methods
  of `AnyBackend` carry the contract, and the store is proved against that contract only.
- A failure pattern is a total function from the number of a call to its fate, fixed at
  construction. A theorem about every such function covers every pattern, including failures
  that have already changed their own key.
- Backends keep a ghost log of the calls made to them. A call is a fault exactly when the script
  made it fail; any other error follows from what is stored. Every outcome is stated about the
  calls an operation made, so a failure is reported only where a call failed, and every key that
  must be attempted shows up as a call. `Quiet` says that nothing is scripted to fail.
- A mutex-protected method is one atomic step; `Store` methods are therefore plain methods.
  `BundleRace` and `CacheRace` interleave single backend and file-system calls.
- Ranging over a Go map is a loop that picks any remaining key. `sort.Slice`, which is not
  stable, promises nothing about ties, so results do not depend on them.
- Errors are datatypes; their wording is kept only where it matters, in the leak assertion.

The main results:

- `SetBundle` is all or nothing under every failure pattern: it reads, then writes in order, and
  after a failed write attempts to undo every key. A failed call leaves the store as it was unless
  a second backend call failed; the keys it lost are exactly those whose undo call failed, and it
  names them (`Bundle.AllOrNothing`, `Bundle.LossesAreFaults`, `Bundle.DamageIsNamed`,
  `Bundle.FatesPartition`). `DeleteBundle` attempts every key, and a failed delete costs its own
  key only (`Bundle.DeleteLeavesFailed`). Where a failing call changes nothing, what the lost keys
  hold is known exactly (`Bundle.DamageIsKnown`).
- Whatever a client does with a store is a run of one abstract map, over exactly the calls that its
  backend logged (`Store.Execute`), and closing and reopening over a keyring is not visible
  (`Sessions.TwoSessions`). While no backend call fails that is the map from (profile, key) to value,
  and two stores that hold the same pairs cannot be told apart, whatever their backends
  (`PairMap.RunRefines`, `PairMap.BackendsIndistinguishable`).
- A bad profile, a bad key and a key that the allowlist lacks are refused by name, without a backend
  call and without a change, in a bundle the first one in byte order for all; over every run only
  items of two valid segments and an allowed key appear (`Behaviour.DisallowedKeyRefused`,
  `Behaviour.BadBundleRefused`, `History.OnlyWritableItemsChange`). What listings and bundle writes
  reply is stated on stored texts and the first byte that differs (`Behaviour.ListProfilesReply`,
  `Behaviour.BundleWritten`, `Text.LessIsByteBefore`).
- Any number of racing bundle writes ends with the initial contents plus the whole of every
  winner, no call ever deletes what another wrote, and somebody wins (`BundleRace.FinishedRun`,
  `BundleRace.DeletesOnlyItsOwn`, `BundleRace.EveryRunFindsWinner`). The code makes, call by call,
  the calls of such a write (`BundleRace.CodeIsProc`).
- The redaction sweep computes the canonical merge of all occurrences, whatever the order of
  secrets or ties; the output never holds a secret, and for ordinary secrets keeps all other text,
  with numbers that, read back out of it, account for every hidden byte
  (`Redactor.Sweep`, `Redaction.RunsCanonical`, `Redaction.OutputReadsBack`).
- A cache file is never partial, whatever fails or crashes (`CacheRace.ResourceIsLastRename`), and
  what is not there is a miss (`Cache.ReadIs`). A write that fails leaves every file as it was
  unless a second call failed, and after any sequence of writes a read gives the last one stored of
  its own resource (`CacheWrite.FailureIsCleanedUp`, `CacheWrite.ReadIsLastStored`).
- The Secret Service backend is a map from key to data in which an operation fails only if the
  user, asked to open a lock, refused, and it leaves what other names store alone
  (`SecretService.Execute`, `SecretService.LastChangeDecides`). A store over the keyring adapter
  over it is the map from (profile, key) to value in every run without a refusal
  (`Sessions.OverSecretService`).
- The codecs round-trip (`Ref.EscapeReversible`, `Ref.ParseIffFormat`, `Keychain.ParseUndoesPrint`,
  `SecretService.EncodedPathMatchesOnlyItsName`).

Where a comment of the source and its code differ, the model follows the code: cache/envelope.go
says at lines 120-122 that the next successful write supersedes an orphaned temporary file, but
temporary names are random and no later write removes it. `CacheRace.OrphanOutlivesNextWrite` is a
run that shows it for every resource, and `CacheRace.OrphanStays` says that no run removes an orphan.

## Model

| member | source | states |
|---|---|---|
| Hex.DecodeEncode | credstore/osbackend_keychain_stable_read.go:107-111 | decoding undoes encoding, in either case of digits |
| Hex.DecodeAccepts | credstore/osbackend_keychain_stable_read.go:104-110 | accepted exactly when the count is even and every byte is 0-9, a-f or A-F |
| Hex.DecodeIs | credstore/osbackend_keychain_stable_read.go:107-111 | each decoded byte is that of its two digits, whatever the case of each |
| Ref.ScanSegment | credstore/ref.go:112-125 | the byte scan decides the segment charset and non-emptiness |
| Ref.SegmentText | credstore/ref.go:96-125 | a segment is a non-empty text of the bytes A-Z, a-z, 0-9, _ and - |
| Ref.ParseIffFormat | credstore/ref.go:127-177 | ParseRef yields a pair iff FormatRef of that pair yields the ref: mutual inverses |
| Ref.ParseRefText | credstore/ref.go:130-152 | accepted is exactly one slash between two segments; which error any other text gives, structure before charset |
| Ref.FormatRefText | credstore/ref.go:164-177 | two segments are joined; else the error names the first that is none, and how it fails |
| Ref.EscapeRefSegment | credstore/ref.go:199-217 | the loop computes the byte-wise escape |
| Ref.EscapeReversible | credstore/ref.go:189-194 | the decoder yields raw iff the text is the escape of raw |
| Ref.EscapeInjective | credstore/ref.go:189-194 | distinct inputs have distinct escapes |
| Ref.EscapeConcat | credstore/ref.go:199-217 | escaping distributes over concatenation |
| Ref.EscapeShape | credstore/ref.go:185-198 | length between n and 4n; a non-empty input gives a valid segment |
| Ref.RefRoundTrip | credstore/ref.go:130-217 | any non-empty identifier survives formatting and parsing under any valid service |
| Keychain.ScanFindsFirst | credstore/osbackend_keychain_stable_read.go:84-97 | the two searches together find the first prefix at a line start, or show there is none |
| Keychain.StartsLineText | credstore/osbackend_keychain_stable_read.go:84-97 | a line starts with the prefix where the text, at its start or after a newline, goes on with `password: ` |
| Keychain.ParseKeychainPassword | credstore/osbackend_keychain_stable_read.go:83-121 | fails without a line-start prefix; otherwise the result is that of the value after the first one |
| Keychain.RealLineIsFirst | credstore/osbackend_keychain_stable_read.go:89-92 | after complete harmless lines the real prefix is the first, whatever follows repeats |
| Keychain.ParseUndoesPrint | credstore/osbackend_keychain_stable_read.go:73-121 | after `password: ` every secret comes back byte for byte from each of the three shapes, any display text, any context |
| Keychain.ParseAccepts | credstore/osbackend_keychain_stable_read.go:98-120 | exactly which values are accepted and as what data |
| Text.LessIsByteBefore | credstore/bundle.go:68 | the order of sort.Strings is that of the first byte that differs, a proper prefix first |
| Text.AscendingByBytes | credstore/bundle.go:193 | a list is sorted iff of any two members the earlier one comes first by bytes |
| Text.ContainsIff | credstore/redaction.go:91-100 | one text contains another iff it is that text with something before and after |
| Text.DecimalReadsBack | credstore/redaction.go:85-89 | a decimal numeral has no leading zero and is read back as its number |
| Redaction.PlaceholderText | credstore/redaction.go:85-89 | a placeholder is the literal `<redacted, len=`, the numeral of the number of hidden bytes, and `>` |
| Redaction.ReplacementMasks | credstore/redaction.go:102-120 | a span of n bytes becomes that literal with the numeral of n, or nothing iff a secret occurs in that literal |
| Redaction.CoveredText | credstore/redaction.go:122-130 | a byte is covered iff the text is something, a secret and something, with the byte in the secret |
| Redaction.JoinedText | credstore/redaction.go:122-130 | two neighbours are joined iff the text is something, a secret and something, with both bytes in the secret |
| Redaction.RunsCanonical | credstore/redaction.go:122-130 | a byte is in a run iff in some occurrence; neighbours share a run iff one occurrence covers both; runs are separate and in order |
| Redaction.RunsDetermined | credstore/redaction.go:122-130 | those two facts determine the runs: no other separate list is the canonical merge |
| Redaction.CleanUnchanged | credstore/redaction.go:148-175 | text without a secret is returned unchanged |
| Redaction.RedactedIsClean | credstore/redaction.go:132-139 | no output holds a secret |
| Redaction.RedactionIdempotent | credstore/redaction.go:140-142 | redacting twice is redacting once |
| Redaction.OrderAndDuplicatesIrrelevant | credstore/redaction.go:132-133 | only the set of secrets matters |
| Redaction.OrdinarySecretsKeepContext | credstore/redaction.go:109-120 | with no angle bracket in a secret and none inside an emitted placeholder, no fallback fires: the output is gaps and one placeholder per run |
| Redaction.RenderInterleaves | credstore/redaction.go:178-198 | for any secrets the rendering is the gaps around the canonical runs and one mark per run |
| Redaction.OutputText | credstore/redaction.go:178-212 | for any secrets input and rendering have the same gaps, around the runs in one and around one literal with the length of its run, or nothing, in the other; the output is that rendering unless it still holds a secret |
| Redaction.OutputReadsBack | credstore/redaction.go:85-130 | for ordinary secrets the output is the gaps around one literal per run, and the gap lengths and the numbers read out of the output add up to the length of the input |
| Redaction.GapsAreKept | credstore/redaction.go:125-130 | the gaps of the output are exactly the bytes in no occurrence, in order |
| Redaction.BytesConserved | credstore/redaction.go:125-130 | the gaps of the output and all N together add up to the input length, for any secrets |
| Redactor.OccurrencesOf | credstore/redaction.go:158-171 | the one-byte-advance scan finds exactly the occurrences of one secret, overlapping ones included |
| Redactor.CollectSpans | credstore/redaction.go:156-172 | the collected spans are exactly the occurrences of all secrets |
| Redactor.SortByStart | credstore/redaction.go:176 | sorted by start, same spans, nothing about ties |
| Redactor.Sweep | credstore/redaction.go:178-198 | the sweep over any such order computes the rendering of the canonical runs |
| Redactor.RedactWith | credstore/redaction.go:148-212 | scan, sort, sweep and guard together compute the redaction |
| Redactor.SecretRedactor.constructor | credstore/redaction.go:37-45 | loads exactly the non-empty secrets, once each |
| Redactor.SecretRedactor.Add | credstore/redaction.go:58-70 | appends a new non-empty secret, else changes nothing |
| Redactor.SecretRedactor.Redact | credstore/redaction.go:140-142 | the redaction under the secrets loaded at the call |
| Redactor.SecretRedactor.RedactHeaders | credstore/redaction.go:233-249 | in any order of names every value is scrubbed under one snapshot, and no name is lost; of a value under `authorization`, `cookie` or `set-cookie`, in any case, only its length is told |
| Redactor.ScrubValues | credstore/redaction.go:238-248 | forced headers wholesale, others by redaction, value by value |
| Redactor.ForcedInAnyCase | credstore/redaction.go:214-220 | forced are exactly `authorization`, `cookie` and `set-cookie`, in any case of their letters |
| Redactor.ScrubbedByName | credstore/redaction.go:238-248 | a value under one of the three names is replaced by the literal with its length, or nothing; any other is redacted as text |
| Redactor.ScrubbedIsClean | credstore/redaction.go:222-232 | no scrubbed value holds a secret; a forced one depends on the value's length only |
| Redactor.RunGrows | credstore/redaction.go:58-83 | over any run the list only grows, stays free of empty and repeated secrets, and snapshots do not change |
| Redactor.LoadedSecretsNeverEmitted | credstore/redaction.go:140-249 | what is loaded before a call's snapshot is in nothing the call emits, under any interleaving |
| Redactor.SafeErrorText | credstore/redaction.go:346-355 | the chosen text holds no secret |
| Redactor.SafeErrorTextIs | credstore/redaction.go:346-355 | the message if it holds no secret, else the fixed generic text if that holds none, else nothing |
| Redactor.LeakReportText | credstore/redaction.go:322-338 | the report is the fixed header and, separated by commas, for each leaked secret in argument order its position from one and its length, both as numerals |
| Redactor.NoLeakAssertion | credstore/redaction.go:322-340 | fails iff a non-empty secret occurs; its text is that report unless the report holds a secret, and holds none itself |
| Redactor.RedactedOutputPasses | credstore/redaction.go:140-142 | redacted output passes the leak assertion for the same secrets |
| Backend.MemoryBackend.constructor | credstore/memory.go:23-29 | an open empty map with the given hooks |
| Backend.MemoryBackend.Get | credstore/memory.go:33-44 | value, not found, or closed |
| Backend.MemoryBackend.Set | credstore/memory.go:46-67 | atomic conditional write; any failure changes nothing; which error when; a fault exactly when the hook fires |
| Backend.MemoryBackend.Delete | credstore/memory.go:69-85 | removes an existing key; the hook is asked about existing keys only and a fault is what it said; any failure changes nothing |
| Backend.MemoryBackend.Exists | credstore/memory.go:87-95 | presence, or closed |
| Backend.MemoryBackend.List | credstore/memory.go:97-108 | every key once, in any order, or closed |
| Backend.MemoryBackend.Close | credstore/memory.go:110-123 | closed and empty afterwards, also when closed before |
| Backend.OsKeyringBackend.Get | credstore/osbackend_core.go:247-256 | the stored data, or not found iff missing, or a failure iff the keyring call failed |
| Backend.OsKeyringBackend.Set | credstore/osbackend_core.go:181-277 | meets the contract although a failing keyring write may have changed its own item; a no-overwrite set whose lookup failed changed nothing; a fault exactly when a keyring call failed; what is stored carries the documented label and description |
| Backend.OsKeyringBackend.Delete | credstore/osbackend_core.go:279-287 | meets the contract; not found iff no keyring call failed and the item is missing |
| Backend.OsKeyringBackend.Exists | credstore/osbackend_core.go:289-303 | presence through metadata, or through a read where metadata is unsupported |
| Backend.OsKeyringBackend.List | credstore/osbackend_core.go:305-311 | every stored key once, or a failure |
| Backend.AnyKeyring.Get | credstore/osbackend_core.go:247-303 | one contract of lookups over a platform keyring and the Secret Service: the stored data, not found iff missing, or broken exactly when the call failed or its prompt was refused |
| Backend.AnyKeyring.SetItem | credstore/secretservice_core.go:97-116 | one contract of writes over both: stored, or broken exactly when the call failed or its prompt was refused, and a refusal changes nothing |
| Backend.AnyKeyring.Remove | credstore/secretservice_core.go:118-140 | one contract of removals over both: removed, not found iff missing, or broken exactly when the call failed or its prompt was refused |
| Backend.AnyBackend.Set | credstore/store.go:166-171 | the contract of set over either backend; without a fault the error is the one the contents decide |
| Backend.AnyBackend.Delete | credstore/store.go:164-180 | the contract of delete over either backend; without a fault the error is the one the contents decide |
| Backend.AnyBackend.Get | credstore/store.go:164-180 | the contract of get over either backend |
| Bundle.ItemKeyInjective | credstore/store.go:314-330 | distinct (profile, key) pairs have distinct item keys |
| Bundle.StoreIsMapOfPairs | credstore/store.go:5-6 | reading, writing and removing an item key does just that to its (profile, key) pair |
| Bundle.ViewDetermines | credstore/store.go:314-330 | stores of well-formed items with the same pairs and values are equal |
| Bundle.LossesAreFaults | credstore/bundle.go:26-31 | after a rollback the backend calls that failed are the write and one for each key lost, no more and no fewer |
| Bundle.AllOrNothing | credstore/bundle.go:157-168 | a failed call leaves the store as it was if it lost no key, and so whenever at most one backend call failed; a success stores every pair and nothing else, and no call failed |
| Bundle.DamageIsNamed | credstore/bundle.go:26-33 | any entry that differs after a failed call is named in RollbackFailed and in the error, and the call that was to undo it failed |
| Bundle.FatesPartition | credstore/bundle.go:15-40 | the four lists are sorted, disjoint and together the keys of kv, each says what happened to its keys, and a key is lost exactly when its one undo call failed |
| Bundle.DamageIsKnown | credstore/bundle.go:26-33 | where a failing call changes nothing, the entries that differ after a failed call are exactly those of lost keys other than the failing one, and they hold the new values |
| Bundle.QuietSuccess | credstore/bundle.go:187-259 | without backend failures a well-formed call succeeds iff it overwrites or no target exists |
| Bundle.DeleteTouchesOneProfile | credstore/bundle.go:123-155 | deleting a bundle touches no item of another profile |
| Bundle.QuietDeleteEmpties | credstore/bundle.go:123-155 | when no call fails every key is reported deleted and the profile is empty |
| Bundle.DeleteLeavesFailed | credstore/bundle.go:123-127 | as many keys are reported failed as calls failed, each by its own delete; every other key is gone, and where a failing delete changes nothing exactly the reported ones remain, unchanged |
| Store.NormalizeAllowedKeys | credstore/store.go:290-312 | the set and the sorted list of the given keys, or, exactly when some key is bad, the first bad key's error |
| Store.ValidateKeys | credstore/bundle.go:187-204 | accepts iff every key is valid and allowed, else the error of the first bad key in byte order |
| Store.ScanExisting | credstore/bundle.go:206-214 | one call per target in order; exactly the targets present, or the error of the one call that failed; changes nothing |
| Store.CaptureSnapshot | credstore/bundle.go:230-240 | the prior value of exactly the existing targets, or the error of the one call that failed; changes nothing |
| Store.Conflicts | credstore/bundle.go:219-229 | the existing targets, sorted |
| Store.ForwardWrite | credstore/bundle.go:242-254 | one write call per key of a prefix of the sorted keys, with the caller's flag; it stops only at a call that failed; then only the failing key may be off, and not even it on a lost race |
| Store.UndoOne | credstore/bundle.go:274-292 | one call puts one key back, restored or absent, unless that call fails |
| Store.RollBack | credstore/bundle.go:273-296 | every key is attempted once, in order, and reported failed exactly when its call failed; the others are as they were, and where a failing call changes nothing the failed ones hold what they held |
| Store.Untouched | credstore/bundle.go:298-313 | the keys after the failing one, plus a racer's key, sorted |
| Store.UndoBundle | credstore/bundle.go:261-313 | the rollback as a whole attempts every key it must and meets the documented fates |
| Store.WriteBundle | credstore/bundle.go:206-322 | scan, snapshot, write and rollback meet the outcome of a validated call, stated on the backend calls they made |
| Store.CheckedWrite | credstore/bundle.go:180-322 | SetBundle on an open store meets its full outcome; a malformed call reaches no backend |
| Store.BundleBareKeys | credstore/bundle.go:54-70 | the sorted keys of one profile, or the error of the listing call |
| Store.DistinctProfiles | credstore/bundle.go:87-121 | the sorted distinct profiles, items without a profile ignored, or the error of the listing call |
| Store.DeleteAll | credstore/bundle.go:141-154 | one delete call per key, in order; a key is reported failed exactly when its call failed and, where a failing delete changes nothing, is unchanged; the others are gone |
| Store.Store.Close | credstore/store.go:361-386 | from now on the store is closed and its abstract state empty; what a keyring stores is untouched; closing twice is harmless |
| Store.Store.Get | credstore/store.go:388-403 | closed, then syntax errors, then the stored value; not found only if absent; any other error only if the one backend call failed; changes nothing; no allowlist |
| Store.Store.Set | credstore/store.go:405-426 | closed, syntax, allowlist, then stored, or already there, or the one backend call failed with at most its own key changed |
| Store.Store.Delete | credstore/store.go:428-444 | closed, syntax, allowlist, then removed, or not found, or the one backend call failed with at most its own key changed |
| Store.Store.Exists | credstore/store.go:446-460 | closed, then syntax errors, then presence; changes nothing |
| Store.Store.ListBundle | credstore/bundle.go:72-85 | the sorted keys of the profile, or the error; changes nothing |
| Store.Store.ListProfiles | credstore/bundle.go:96-121 | the sorted distinct profiles, or the error; changes nothing |
| Store.Store.DeleteBundle | credstore/bundle.go:128-155 | one listing and one delete call per key of the profile; reports exactly those removed and those whose delete failed |
| Store.Store.SetBundle | credstore/bundle.go:169-322 | validation before any backend call, every target asked for and all reads before any write, conflict gate, all written, or every key's undo attempted and its fate reported |
| Store.Execute | credstore/store.go:361-460 | whatever sequence of operations a client makes, closing included, is a run of the abstract map over exactly the calls the backend logged; a keyring ends up holding what the store held when it was closed |
| Sessions.Session | credstore/store.go:361-460 | opening a store over a keyring, using and closing it is a run from what the keyring held to what it holds |
| Sessions.TwoSessions | credstore/osbackend_core.go:313-316 | closing a store and opening another over the same keyring is not visible: the two sessions are one run |
| Sessions.OverSecretService | credstore/secretservice_core.go:66-158 | over the whole stack a refused prompt is the only fault and changes nothing, and without one every operation is that of the map from (profile, key) to value |
| History.StepFrame | credstore/store.go:164-180 | no operation changes an item key it does not touch |
| History.StepChangesOnlyWritable | credstore/bundle.go:187-204 | an item new or different after a step has valid segments and an allowed key, unless a failing delete of DeleteBundle spoilt it |
| History.OnlyWritableItemsChange | credstore/bundle.go:187-204 | the same over any run: only items with valid segments and an allowed key appear, or change, but for a failed delete of that very item |
| History.WellFormedKept | credstore/store.go:314-330 | every run keeps a store whose items all have a valid profile and key such a store |
| History.ListingsPartition | credstore/bundle.go:54-121 | on such a store the replies of ListProfiles and of ListBundle for each listed profile list every item exactly once and nothing else; none is refused or empty |
| History.ProfileIsolation | credstore/bundle.go:123-155 | a run that never names a profile leaves all its items as they were |
| History.ReadYourWrites | credstore/store.go:388-426 | Get gives the last stored value or a backend failure, never not-found, until the item is touched |
| History.ClosedForGood | credstore/store.go:361-397 | after Close every operation but Close is refused without a backend call |
| Behaviour.BadProfileRefused | credstore/bundle.go:40-50 | a profile that is no segment is refused by every operation that names one, by that error, without change or backend call |
| Behaviour.BadKeyRefused | credstore/store.go:314-330 | a key that is no segment is refused by every operation on one item, by that error, without change or backend call |
| Behaviour.DisallowedKeyRefused | credstore/store.go:332-342 | Set and Delete refuse a key that the allowlist lacks, naming the key and what is allowed, without change or backend call |
| Behaviour.BadBundleRefused | credstore/bundle.go:187-204 | a bundle with a malformed or disallowed key is refused whole, with the error of the first such key by bytes, without change or backend call |
| Behaviour.ItemOperation | credstore/store.go:388-460 | an operation with good arguments is one backend call on `<profile>/<key>` and, unless that fails, reads, sets or deletes that entry: overwriting only on request, deleting only what is there |
| Behaviour.ListBundleReply | credstore/bundle.go:54-85 | exactly the keys whose `<profile>/<key>` is stored, in the order of the first byte that differs |
| Behaviour.ListProfilesReply | credstore/bundle.go:87-121 | exactly what stands before the first slash of a stored item, if not empty, in that order |
| Behaviour.BundleWritten | credstore/bundle.go:242-259 | exactly the keys of the bundle are reported as written, in byte order, which is the order of the write calls; each item holds its value and no other changed |
| Behaviour.BundleConflict | credstore/bundle.go:219-229 | exactly the existing targets are named, in byte order; nothing is written |
| Behaviour.BundleRolledBack | credstore/bundle.go:261-313 | untouched are exactly the keys after the failing one in byte order, and the failing one iff a racer owned it; every list is in that order |
| Behaviour.BundleDeleted | credstore/bundle.go:123-155 | without a failing call every item whose text starts with `<profile>/` is gone, its key reported in byte order, and every other item as it was |
| PairMap.StepRefines | credstore/store.go:5-6 | without a failing backend call each operation is the operation of the map from (profile, key) to value, with its reply |
| PairMap.RunRefines | credstore/store.go:5-6 | a run without failing backend calls is a run of that map |
| PairMap.IdealDeterministic | credstore/store.go:164-180 | in that map the state and the arguments fix the reply and the new state |
| PairMap.BackendsIndistinguishable | credstore/store.go:164-180 | two stores with the same allowlist and pairs give the same replies to the same operations, whatever their backends, and hold the same pairs ever after |
| BundleRace.RunKeepsInv | credstore/bundle.go:242-296 | in every reachable state the store is the initial contents plus what the calls hold, no key held twice |
| BundleRace.DeletesOnlyItsOwn | credstore/bundle.go:261-292 | a rollback deletes only a key this call wrote, still holding its value |
| BundleRace.FinishedRun | credstore/bundle.go:242-296 | at the end: initial contents plus all pairs of the successful calls, disjoint, nothing of the failed ones |
| BundleRace.SomeCallSucceeds | credstore/bundle.go:187-254 | if no target was there initially, some finished call succeeded |
| BundleRace.RunIsBounded | credstore/bundle.go:206-296 | every run has bounded length |
| BundleRace.EveryRunFindsWinner | credstore/bundle.go:187-296 | a run is bounded, and can be extended or has a winner |
| BundleRace.LoneCallIsSetBundle | credstore/bundle.go:206-259 | a call racing with nobody does what the sequential contract says |
| BundleRace.StepIsAfter | credstore/bundle.go:206-296 | a process of the race goes on by what its backend call finds and by nothing else |
| BundleRace.CodeIsProc | credstore/bundle.go:206-296 | the calls of SetBundle, on success, conflict or a lost race, are one by one those of such a process, which finds a racer exactly where the write failed and ends as the code does |
| Cache.PathsInjective | cache/locator.go:53-67 | under one root distinct (instance, resource) pairs have distinct files |
| Cache.TempIsNoResource | cache/envelope.go:139-143 | no temporary name is a resource file |
| Cache.ComponentText | cache/locator.go:30-40 | the accepted path components, by their bytes |
| Cache.ResourceFileText | cache/locator.go:53-67 | the path is root, instance and resource joined by slashes and ended by `.json`; which error a bad part gives |
| Cache.ReadIs | cache/envelope.go:53-79 | under a valid path: a miss if the file is absent or complete with another version, resource or instance, an error if it is partial, else the envelope in it; under a bad path its error |
| Cache.HitIsGenuine | cache/envelope.go:45-79 | a hit has the requested identity and current version and is what the file holds |
| Cache.ReadAfterWrite | cache/envelope.go:96-108 | after a write the read gives the envelope verbatim iff its version is current, else a miss |
| CacheWrite.FileSystem.AtomicWriteEnvelope | cache/envelope.go:117-166 | makes its seven calls in order, stops at the first that fails and names it; success replaces the one file, failure changes nothing unless the removal failed too; and it is a run of one CacheRace writer |
| CacheWrite.FileSystem.WriteEnvelope | cache/envelope.go:96-115 | the same, and a mismatched instance or bad path is refused without a call |
| CacheWrite.FileSystem.WriteResource | cache/envelope.go:81-94 | the same; after success a read hits with the stamped envelope, after failure it gives what it gave before |
| CacheWrite.FailureIsCleanedUp | cache/envelope.go:145-164 | a failed write leaves every file as it was unless a second call failed; a valid write with a fresh temporary name succeeds iff no call failed |
| CacheWrite.WriteElsewhere | cache/locator.go:53-67 | a write under one root that fails, or is of another instance or resource, does not change a read |
| CacheWrite.ReadIsLastStored | cache/envelope.go:53-166 | after any sequence of writes a read gives the last one stored of its own resource, a miss if its version is old; if there is none it gives what it gave before, a miss if the file was not there |
| CacheWrite.WriteAll | cache/envelope.go:96-166 | whatever writes a client makes is such a sequence, over exactly the calls the file system counted |
| CacheRace.ResourceIsLastRename | cache/envelope.go:117-122 | a resource path holds the complete envelope renamed last, or its initial content, under every interleaving, failure and crash |
| CacheRace.ReadersSeeWholeEnvelopes | cache/envelope.go:117-122 | if a resource file is absent or complete at the start, no reader ever sees a malformed one, and a hit is the initial envelope or some writer's |
| CacheRace.NothingLeftBehind | cache/envelope.go:145-164 | when all writers ended without crash or failed removal, only resource files are new |
| CacheRace.EveryOrphanHasOwner | cache/envelope.go:120-122 | a new non-resource file is the temporary file of exactly one writer |
| CacheRace.OrphanStays | cache/envelope.go:120-122 | an orphaned temporary file is not removed by later writes |
| CacheRace.OrphansExactly | cache/envelope.go:117-166 | when all writers are done a new non-resource file is there iff some writer crashed with it or could not remove it |
| CacheRace.OrphanOutlivesNextWrite | cache/envelope.go:120-122 | for every resource, a run in which a writer crashes, a second one renames onto the same path, and the orphan is still there |
| SecretService.DecodeSecretServicePath | credstore/secretservice_core.go:260-280 | the loop computes the decoding |
| SecretService.DecodeEncodedName | credstore/secretservice_core.go:260-280 | decoding is a left inverse of the escape, in either case of digits |
| SecretService.EncodedPathMatchesOnlyItsName | credstore/secretservice_core.go:198-200 | the escaped path of one name matches exactly that name |
| SecretService.FirstMatchFound | credstore/secretservice_core.go:170-185 | the collection found is listed, matches, and stands after none that does; none is found only if none matches |
| SecretService.SecretServiceBackend.constructor | credstore/secretservice_core.go:55-64 | opens under the given or the default name |
| SecretService.SecretServiceBackend.OpenSecrets | credstore/secretservice_core.go:170-185 | remembers the first matching collection |
| SecretService.SecretServiceBackend.Get | credstore/secretservice_core.go:66-81 | the stored value, not found iff absent, refused iff the item was locked and the user refused; reads only unlocked items |
| SecretService.SecretServiceBackend.Metadata | credstore/secretservice_core.go:83-95 | presence, without unlocking |
| SecretService.SecretServiceBackend.Set | credstore/secretservice_core.go:97-116 | stores the value, creating the collection if missing, or changes no data, exactly when its collection was locked and the user refused; creates only in an unlocked collection; touches and adds no other collection |
| SecretService.SecretServiceBackend.Remove | credstore/secretservice_core.go:118-140 | removes the key, not found iff absent, refused iff the item was locked and the user refused; deletes only unlocked items; touches and adds no other collection |
| SecretService.SecretServiceBackend.Keys | credstore/secretservice_core.go:142-158 | exactly the stored keys, refused iff the collection was locked and the user refused; none for a missing collection |
| SecretService.Execute | credstore/secretservice_core.go:66-158 | whatever a client does, while locks come and go, is a run of a map in which an operation fails only at a refused prompt; what any other name stores is unchanged |
| SecretService.LastChangeDecides | credstore/secretservice_core.go:97-140 | over any run a key holds what the last successful Set or Remove of it left |
| SecretService.NeverRefused | credstore/secretservice_core.go:66-158 | if the user refuses no prompt of the run, every reply is the map's |

## Left out

- Backend.MemoryBackend.constructor: a delete hook that itself claims ErrNotFound for a key that exists is excluded, because credstore/bundle.go:283-288 relies on ErrNotFound meaning that the key is absent; every other hook is allowed.
- Backend.OsKeyringBackend.Set: no other process writes between its read and its write, because the source promises only best effort there (credstore/bundle.go:164-168).
- Redactor.SecretRedactor.RedactHeaders: header names are lowered byte by byte, so Unicode letters that Go lowers to ASCII ones are not modelled.
- CacheWrite.FileSystem.WriteEnvelope: the root is taken as already in the form filepath.Clean gives, and os.CreateTemp's retries after a name clash are one attempt.
- RedactWriter: it forwards one redaction per Write; secrets split across two writes are a documented limit of the source.
- JSON encoding of envelopes and keyring items: files are complete or partial, items are values, and encoding an envelope fails as scripted.
- Real keyrings, D-Bus, `/usr/bin/security`, `pass`, 1Password and file encryption: foreign code.
- Backend selection, probing and configuration (select.go, flag.go, linuxfallback.go): finite case tables.
- Migration, freshness classification, state directories: short cases and string formatting.
- Error wording, except in the leak assertion.
- Clearing of secrets from memory: the source calls it best effort.
- Failing D-Bus calls other than a refused unlock prompt in SecretService, and collections deleted by other programs. Locks that come and go while a Store is in use are modelled for the Secret Service backend alone (SecretService.Execute).
