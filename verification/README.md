# Verified model of the release, repair, matching, key and migration scripts

This project models the parts of the repository where a mistake costs data: the release bundle verifier and its staged
extractor, the restore verification, the integrity checks and their repair, the two matcher counting queries with the
benchmark seeding, the encryption keyring and search secrets, the two migration checkers, and the decorator insertion.
`dafny verify dfyconfig.toml` checks everything.

How the model is laid out:

- `ManifestPath`, `Manifest`, `Bundle`: canonical paths, the manifest parser, and `verify_bundle_manifest` for zip and
  directory bundles, each loop proved against one declarative notion of acceptance (`Bundle.Accepted`).
- `FileTree`, `FileSystem`, `Extract`, `SafeExtraction`, `RoundTrip`: a file system object whose every operation may
  fail and whose ghost `history` records every tree it went through; `safe_extract` on top of it; verification of the result.
- `Restore`: incremental digests and the comparison of restored objects with the bundle.
- `Schema`, `Sql`, `Repair`, `Integrity`: a fragment of SQL with NULLs and three-valued conditions, a general theory of
  filtered UPDATE/DELETE repair, and the actual nineteen checks and thirteen steps as data. `Orphans` says without SQL which
  rows are broken and proves that checks and steps mean just those; `RepairScript` runs them and states the whole repair.
- `Bags`, `Matcher`, `RoundRobin`, `Seeding`: joins on bags of rows, both counting queries, their plain meaning, and the
  totals on the seeded benchmark data.
- `Keyring`, `KeyringConfig`, `BlindIndex`: encryption under versioned keys, rotation histories, and search secrets.
- `Migrations`: the two checkers against what a migration executes. `RouteSync`: positional insertion of lines.
- `Outcomes`, `Text`: results and string operations.

Library functions (SHA-256, JSON and zip decoding, `int` on text, PBKDF2, AES-GCM, HMAC, base64, UTF-8, `head_object`)
are parameters; theorems hold for every choice of them, under the laws stated where they are used. AES-GCM opening undoes
sealing and refuses other keys (sections 7.1 and 7.2 of NIST SP 800-38D); the base64 alphabet has no colon (section 4 of
RFC 4648). The random tokens of the extractor, the nonce of the cipher and the transaction time are arguments.

Where a promise does not hold of the code, the model keeps the code and proves the exact condition:

- `_safe_manifest_path` is not idempotent: `./C:` gives `C:` and `./ ` (dot, slash, blank) gives a blank name, and both
  results are refused when read again. So a zip that lists such a path is extracted but the extracted tree does not verify;
  `RoundTrip.RoundTrip` shows these two kinds of path are the only obstacle, and that directory bundles never have them.
- If the last `rmdir` of promotion fails, `safe_extract` raises although the target is complete; if a rename and the
  compensating rename both fail, the target is gone and the empty directory is kept aside. `SafeExtraction.SafeExtract`
  counts the I/O faults of every ending: one for an error that leaves the target as it was, two for a displaced target,
  and one more when the staging tree is left behind.
- A zip whose manifest is spelt `./manifest.json` passes the name test and then fails when the manifest is read.
- The blind-DDL checker judges an operation by its class and by a lookup of its model name, not by the tables it changes.
  Deleting or renaming a model (no `model_name`), a class that is not listed (such as `AlterModelTable` or `RunPython`), raw
  SQL, and a model created under another table than today's are executed and not reported (`Migrations.BlindSpots`). A clean
  report can be relied on exactly when every table the migration touches is one the checker looks up
  (`Migrations.Reliable`). It also reports the database side of a wrapper nested in a state side although Django does not
  execute it; the report is exact precisely when no issue comes from a state side (`Migrations.Exact`).
- When the route import is missing, it is inserted first and every decorator for a line at or below it lands one line too
  high; `RouteSync.LandsOnTarget` says for every file and line exactly when the decorators meet their line.
- `auth_security_events_no_mod` skips updates silently (server/alembic/versions/20260212_0012_auth_security_events.py:75-88),
  so the two UPDATE steps depend on the trigger being disabled; `RepairScript.Connection.Execute` says so.

## Model

| member | source | states |
|---|---|---|
| ManifestPath.SafePathCanonical | scripts/verify_release_bundle_manifest.py:40-49 | an accepted path has only clean components, is the text of its components, and means the same whatever slashes or dots the raw text used |
| ManifestPath.SafePathStaysInside | scripts/verify_release_bundle_manifest.py:40-49 | resolving the raw text lexically against any directory, with dot-dot honoured, never leaves that directory and arrives at the canonical components |
| ManifestPath.CanonicalInjective | scripts/verify_release_bundle_manifest.py:40-49 | two canonical texts with the same components are equal |
| ManifestPath.SafePathIdempotent | scripts/verify_release_bundle_manifest.py:40-49 | canonicalising again gives the same text if and only if it is neither blank nor drive-like; otherwise it is refused |
| ManifestPath.EveryCleanPathArises | scripts/verify_release_bundle_manifest.py:40-49 | every list of clean components is the canonical form of some raw text, so both exceptions to idempotence occur in full |
| ManifestPath.SafePathNotIdempotent | scripts/verify_release_bundle_manifest.py:40-49 | concrete inputs that are accepted once and refused the second time |
| Manifest.EntryMeaning | scripts/verify_release_bundle_manifest.py:114-135 | an entry is accepted exactly when it is an object whose path is a text with this canonical form, whose size is this number (or its text), and whose hash has these 64 hexadecimal digits, letter case and outer space aside |
| Manifest.WrongMeaning | scripts/verify_release_bundle_manifest.py:112-134 | each error names what is wrong with the entry: the first fault in the order of the tests |
| Manifest.ManifestFiles | scripts/verify_release_bundle_manifest.py:108-136 | succeeds exactly when the entries describe a duplicate-free list of files, returns that list, and otherwise names the first faulty entry's fault |
| Manifest.DescribedCanonical | scripts/verify_release_bundle_manifest.py:114-122 | every listed path is canonical and is not the manifest itself |
| Manifest.DefaultIsCanonical | scripts/verify_release_bundle_manifest.py:145-153 | a default path of this shape passes canonicalisation unchanged |
| Manifest.ScriptDefaults | scripts/verify_release_bundle_manifest.py:145-153 | the scripts' own dump and report paths are canonical, so the default needs no check |
| Manifest.RequiredPathsShape | scripts/verify_release_bundle_manifest.py:139-165 | an accepted manifest fixes the report path, and its mirror root is exactly `minio` followed by a valid bucket name |
| Manifest.HeaderMeaning | scripts/verify_release_bundle_manifest.py:139-165 | a header is accepted exactly when it has the known kind, keeps dump and report at their places or leaves them out, and names a bucket and the mirror root made of it |
| Manifest.BucketMeaning | scripts/verify_release_bundle_manifest.py:63-67 | the accepted bucket names are the trimmed texts of 3 to 63 lower-case letters, digits and inner hyphens |
| Bundle.ZipPayloadMemberMap | scripts/verify_release_bundle_manifest.py:168-179 | succeeds exactly when all names are safe and no two payload members share a canonical path, and maps each canonical path to its member |
| Bundle.ExactPayloadSet | scripts/verify_release_bundle_manifest.py:197-204 | succeeds exactly when the payload paths are the listed paths |
| Bundle.ActualDirPayloadFiles | scripts/verify_release_bundle_manifest.py:182-194 | succeeds exactly when every file's path is safe, and returns the canonical paths of the files below the root, in whatever order they are met |
| Bundle.ValidateFilesFromZip | scripts/verify_release_bundle_manifest.py:207-230 | success means required files, a non-empty mirror and a payload that matches the manifest in paths, sizes and hashes; failure means one of these is missing |
| Bundle.ValidateFilesFromDir | scripts/verify_release_bundle_manifest.py:233-255 | the same for a directory |
| Bundle.LoadManifestFromZip | scripts/verify_release_bundle_manifest.py:81-98 | gives the JSON object in the one member spelt `manifest.json`; each failure names what is wrong: a repeated name, the first unsafe name, no manifest under any spelling, one spelt otherwise, or no JSON object |
| Bundle.CountedNames | scripts/verify_release_bundle_manifest.py:83-86 | comparing the number of names with the number of distinct names finds exactly the repeated names |
| Bundle.VerifyBundleManifest | scripts/verify_release_bundle_manifest.py:258-286 | succeeds exactly on the accepted bundles, zip or directory, with their parsed manifest |
| Bundle.ZipBijection | scripts/verify_release_bundle_manifest.py:168-230 | in an accepted zip, listed files and payload members correspond one to one, each with its size and hash |
| Bundle.AcceptedUnique | scripts/verify_release_bundle_manifest.py:258-286 | a bundle is accepted with at most one parsed manifest and one content |
| FileSystem.FileSystem.MkdirParents | scripts/verify_release_bundle_manifest.py:316-334 | creates missing directories on the way only, at every instant, and is refused only by a file in the way |
| FileSystem.FileSystem.RemoveTree | scripts/verify_release_bundle_manifest.py:403-404 | removes one entry at a time, touches nothing outside the tree, and leaves the rest after a fault |
| FileSystem.RenamedSubTrees | scripts/verify_release_bundle_manifest.py:365-377 | a rename carries the whole tree over, empties the old place and changes nothing elsewhere |
| Extract.WriteExtractedFile | scripts/verify_release_bundle_manifest.py:331-349 | without a fault, a file joins the staging tree if and only if its place is compatible with those already written; nothing outside staging changes at any instant |
| Extract.FillFromZip | scripts/verify_release_bundle_manifest.py:388-397 | without a fault, filling succeeds if and only if the places are prefix-free, and leaves exactly the wanted tree whatever the listing order |
| Extract.CopyValidatedDir | scripts/verify_release_bundle_manifest.py:352-357 | the same when copying from a directory bundle |
| Extract.AcceptedExtractable | scripts/verify_release_bundle_manifest.py:380-398 | an accepted bundle carries bytes for every listed path, and the paths are canonical and distinct |
| SafeExtraction.ThreeSiblings | scripts/verify_release_bundle_manifest.py:321-328 | target, staging and backup are three different children of one directory, so none lies in another |
| SafeExtraction.SiblingNames | scripts/verify_release_bundle_manifest.py:324-363 | staging and backup are hidden names beside the target, made of its name and a token |
| SafeExtraction.ResolveExtractRequest | scripts/verify_release_bundle_manifest.py:304-318 | refuses only unusable targets and adds nothing but directories above the target |
| SafeExtraction.PromoteStaging | scripts/verify_release_bundle_manifest.py:360-377 | at every instant the target is as before, absent or the staged tree; each ending fixes the target, the backup and the exact number of faults: none when it returns or the name is taken, one when the target is unmoved or complete, two when it stays aside |
| SafeExtraction.FillAndPromote | scripts/verify_release_bundle_manifest.py:386-404 | the try and finally together: all or nothing at the target, the backup back as it was unless complete or displaced, and staging left behind only by one more fault |
| SafeExtraction.SafeExtract | scripts/verify_release_bundle_manifest.py:380-404 | all-or-nothing extraction at every instant under any faults; the exact number of faults of every ending, so that a single fault neither displaces the target nor, where it made extraction fail, leaves the staging tree; success if and only if nothing speaks against it when there is no fault; staging, backup and bystanders as before |
| RoundTrip.RoundTrip | scripts/verify_release_bundle_manifest.py:258-286 | what extraction leaves is accepted again with the same manifest and content if and only if no listed path is blank or drive-like, and otherwise is not accepted at all |
| RoundTrip.DirBundleReadsBack | scripts/verify_release_bundle_manifest.py:233-255 | a directory bundle lists no such path, so its round trip always succeeds |
| RoundTrip.ExtractThenVerify | scripts/verify_release_bundle_manifest.py:258-404 | the two calls in sequence: after an extraction that completed, verifying the target gives the same parsed manifest if and only if the paths read back, and always for a directory bundle |
| Restore.Sha256Stream | scripts/verify_release_restore_bundle.py:105-112 | however the body is cut into chunks, the digest is that of the whole body |
| Restore.ObjectPathBelowMirror | scripts/verify_release_restore_bundle.py:90-102 | a listed path reached from an object key lies below the mirror root, at the components of the key |
| Restore.KeyMeaning | scripts/verify_release_restore_bundle.py:90-102 | an object key is mapped exactly when it is a plain relative path, and then below the mirror root |
| Restore.VerifyRow | scripts/verify_release_restore_bundle.py:122-168 | no failure exactly when bucket and key are good and the object, in the override bucket if there is one and else in the row's own, has the listed size and hash; a verified row fails only by a counted fault of the store |
| Restore.VerifyStorageObjects | scripts/verify_release_restore_bundle.py:115-173 | succeeds only if every row is verified; otherwise reports the id of every row that is not, and without a store fault there is one |
| Restore.RestoredAsBundled | scripts/verify_release_restore_bundle.py:115-173 | the object of a verified row has the length and hash of the file the accepted bundle, zip or directory, holds below the mirror root at the components of the key |
| Restore.VerifyRestore | scripts/verify_release_restore_bundle.py:176-212 | end to end: when both verifications succeed, the object of every row, in the override bucket if there is one and else in the row's own, is restored from the accepted bundle; without a store fault, failure means a bundle not accepted, a required object missing or a row not verified |
| Sql.EvalFrame | scripts/repair_local_dev_release_integrity.py:28-141 | a condition depends only on the tables it looks into and the columns it reads |
| Sql.HoldsByDisjunct | scripts/repair_local_dev_release_integrity.py:98-131 | an OR filter keeps a row exactly when one disjunct is true, NULLs included |
| Repair.RunIsRepaired | scripts/repair_local_dev_release_integrity.py:230-241 | running independent steps one by one, in any order and with repetitions, equals applying all of them at once to the original database |
| Repair.AnyOrder | scripts/repair_local_dev_release_integrity.py:239-241 | any rearrangement of independent steps reaches the same database |
| Repair.SecondRunIdle | scripts/repair_local_dev_release_integrity.py:239-241 | a second run changes nothing and every step reports zero rows |
| Repair.StepConserves | scripts/repair_local_dev_release_integrity.py:239-241 | a DELETE shrinks its table by exactly the rows it reports, an UPDATE by none, and no other table changes |
| Repair.CheckZero | scripts/verify_release_backup_integrity.py:283-301 | a check reports zero exactly when it flags no row, also when it counts joined pairs |
| Repair.Complete | scripts/verify_release_backup_integrity.py:515-535 | if steps and checks are aligned, every check reports zero after the repair |
| Repair.Minimal | scripts/repair_local_dev_release_integrity.py:47-140 | on a table repaired by DELETE, a row goes exactly when some check on that table flags it, and is otherwise unchanged |
| Integrity.StepsIndependent | scripts/repair_local_dev_release_integrity.py:28-141 | no step changes what another step's condition looks at |
| Integrity.StepsAligned | scripts/verify_release_backup_integrity.py:83-425 | the thirteen steps act on exactly what the nineteen checks object to, disjunct by disjunct |
| Integrity.StepsAnyOrder | scripts/repair_local_dev_release_integrity.py:28-141 | every permutation of the repair steps ends in the same database |
| Integrity.StepsSecondRun | scripts/repair_local_dev_release_integrity.py:230-241 | a second run of the thirteen steps is idle, step by step |
| Integrity.RunConserves | scripts/repair_local_dev_release_integrity.py:230-241 | over a whole run each repaired table loses exactly the rows its DELETE reported |
| Orphans.OrphanMeaning | scripts/repair_local_dev_release_integrity.py:29-141 | `NOT EXISTS` on a parent table is true exactly when the reference is NULL or matches no row of it |
| Orphans.CheckMeaning | scripts/verify_release_backup_integrity.py:83-425 | each of the nineteen checks flags exactly the rows with its fault, said with the rows of the other tables alone |
| Orphans.StepMeaning | scripts/repair_local_dev_release_integrity.py:28-141 | each of the thirteen steps takes exactly the broken rows of its table, or the events with a lost reference |
| Orphans.StepsMeaning | scripts/repair_local_dev_release_integrity.py:239-241 | the steps in any order remove exactly the broken rows and clear exactly the lost references, judged in the database as it was |
| Orphans.DeletedExactlyFlagged | scripts/repair_local_dev_release_integrity.py:47-140 | outside the security events a row is deleted exactly when it is broken, which is when some check flags it |
| Orphans.AuthEventsMended | scripts/repair_local_dev_release_integrity.py:29-46 | in the security events no row is deleted and only a lost reference changes, to NULL |
| Orphans.StepReports | scripts/repair_local_dev_release_integrity.py:239-241 | on its turn each step reports the broken rows of the database as it was |
| RepairScript.LackingMeaning | scripts/verify_release_backup_integrity.py:538-573 | the loop's tests find exactly the ready objects that name no bucket and key with bytes |
| RepairScript.RepairMeaning | scripts/repair_local_dev_release_integrity.py:230-279 | the steps and the two storage updates together change exactly the broken rows, the lost references, the objects without bytes and their live photos |
| RepairScript.ChecksClean | scripts/verify_release_backup_integrity.py:83-425 | after the repair no row has the fault of any check, from any database |
| RepairScript.StorageClean | scripts/repair_local_dev_release_integrity.py:242-271 | after the repair no ready storage object lacks its bytes, if the object store is stable |
| RepairScript.CleanIsFixed | scripts/repair_local_dev_release_integrity.py:230-279 | a database without faults is left as it is |
| RepairScript.WholeRunIdle | scripts/repair_local_dev_release_integrity.py:230-279 | a second run of the whole repair, at any later time, changes nothing and has nothing to report |
| RepairScript.Connection.Execute | scripts/repair_local_dev_release_integrity.py:239-241 | a step applies in full with its row count, or not at all; on the guarded table it is skipped while the trigger is enabled |
| RepairScript.Connection.MissingReadyStorageObjects | scripts/verify_release_backup_integrity.py:538-573 | returns the ids of the ready objects without bytes, in row order |
| RepairScript.Connection.ApplyRepairs | scripts/repair_local_dev_release_integrity.py:230-279 | unless a statement fails, exactly that repair, with the true counts for every step and both storage updates, the trigger enabled again; if one fails, nothing changed |
| RepairScript.Connection.RunIntegrityChecks | scripts/repair_local_dev_release_integrity.py:220-221 | the twenty true counts of the current database |
| RepairScript.Connection.RepairMain | scripts/repair_local_dev_release_integrity.py:282-339 | reports unless a guard refuses or a statement fails; data changes only when applying was asked for; the counts before and after are those of the two databases, and an applied run reports ok and exits zero |
| RepairScript.LocalHosts | scripts/repair_local_dev_release_integrity.py:171-181 | local are exactly the listed names and everything below `docker.internal` |
| RepairScript.ApplyAllowed | scripts/repair_local_dev_release_integrity.py:183-214 | applying is allowed exactly when confirmed, with a complete schema, without strict mode, outside production-like environments, on a local host and the expected database |
| Bags.InInnerJoin | scripts/benchmark_matcher.py:37-41 | which pairs a JOIN produces |
| Bags.InLeftJoin | scripts/benchmark_matcher.py:74-78 | which pairs a LEFT JOIN produces, padding exactly the rows without partner |
| Matcher.OverlapIsCommonPoint | scripts/benchmark_matcher.py:47-47 | comparing bounds finds exactly the ranges with a point in common |
| Matcher.WhereIsFits | scripts/benchmark_matcher.py:44-54 | the shared WHERE conditions are true exactly on the offers a live demande accepts, NULLs included |
| Matcher.InStrictRows | scripts/benchmark_matcher.py:36-54 | the joined rows of the strict query |
| Matcher.InFallbackRows | scripts/benchmark_matcher.py:61-100 | the joined rows of the fallback query, with what its LEFT JOINs carry |
| Matcher.StrictRefinement | scripts/benchmark_matcher.py:34-56 | the strict query counts, per client, the set of offers that strictly match one of its demandes |
| Matcher.FallbackRefinement | scripts/benchmark_matcher.py:59-102 | the fallback query counts, per client, the set of eligible offers under the location, wilaya or nationwide rule, each once |
| Matcher.FallbackIsStrictAndWidened | scripts/benchmark_matcher.py:34-102 | the fallback finds the strict offers and those of the demandes without location or type, and nothing else |
| Matcher.CountsAgree | scripts/benchmark_matcher.py:34-102 | the counts are equal for a client whose live demandes all have a location and a type |
| Matcher.StrictAtMostFallback | scripts/benchmark_matcher.py:34-102 | a strict count never exceeds the fallback's |
| RoundRobin.SquarePairs | scripts/benchmark_matcher.py:297-321 | the exact number of co-located pairs |
| RoundRobin.SquarePairsBounds | scripts/benchmark_matcher.py:297-299 | it lies between N squared over L and that plus L over 4, as exact quotients |
| RoundRobin.LowerBoundExact | scripts/benchmark_matcher.py:297-299 | the lower bound is attained exactly when L divides N |
| RoundRobin.PairsClosed | scripts/benchmark_matcher.py:297-321 | the number of co-located pairs of any two prefixes in closed form |
| Seeding.ShareExact | scripts/benchmark_matcher.py:263-265 | a slice is its percentage of the wanted number, rounded down |
| Seeding.SlicesFit | scripts/benchmark_matcher.py:258-265 | the wildcard, wilaya and nationwide slices are disjoint stretches of the demandes |
| Seeding.DefaultMapped | scripts/benchmark_matcher.py:214-224 | the default offer action is one the queries map exactly for the actions 1 and 2; a given one is kept |
| Seeding.Session.Seed | scripts/benchmark_matcher.py:186-380 | the statements in their order produce the data written out row by row, with slices of the wanted percentages, or stop exactly on rejected settings |
| Seeding.ClientOffers | scripts/benchmark_matcher.py:226-380 | which offers each seeded client gets from either query |
| Seeding.SeededTotals | scripts/benchmark_matcher.py:258-358 | the totals of both queries on that data in closed form in the slice sizes, and zero when the offer action is not mapped |
| Keyring.RawRoundTrip | core/encryption.py:53-90 | a raw token decrypts under its own key and under no other |
| Keyring.TokenFormat | core/encryption.py:53-118 | what is stored: the current id, a colon, and the base64 form of nonce and sealed text; the empty text as it is |
| Keyring.Decrypt | core/encryption.py:120-136 | the loop over the key order returns what the specification of decryption says |
| Keyring.TaggedExact | core/encryption.py:113-136 | a tagged ciphertext decrypts under another ring exactly when that ring holds the same key under the same id, with the error otherwise |
| Keyring.UntaggedExact | core/encryption.py:129-136 | untagged ciphertext decrypts exactly under the rings that hold its key, under any id and in any order |
| Keyring.ReadableIffHeld | core/encryption.py:120-136 | a store is readable exactly when the ring still holds every key used |
| Keyring.RotationSafety | core/encryption.py:93-136 | over any history of writes and rotations, everything stays readable after every event if and only if each rotation kept the keys in use |
| KeyringConfig.PartMeaning | core/encryption.py:155-163 | a part gives what stands before its first equals sign as the id and all behind it as the key, both trimmed, if neither is empty |
| KeyringConfig.CurrentIdMeaning | core/encryption.py:146-146 | the current id is what `ALE_KEY_VERSION` says, and `v1` if it says nothing |
| KeyringConfig.SourcesMeaning | core/encryption.py:150-179 | key material comes from the parts of the list, the versioned variables, the primary key and the old key, and from nowhere else |
| KeyringConfig.Deduplicate | core/encryption.py:184-187 | each id once, with the last value given for it, in the order of first occurrence |
| KeyringConfig.OrderRing | core/encryption.py:188-193 | the same keys without repetition, the current one first and the others in their order |
| KeyringConfig.Ale.GetEncryptionService | core/encryption.py:143-203 | the first call succeeds exactly on a good version, a present current key and a long enough salt, with the deduplicated ring; later calls return the same service |
| KeyringConfig.ConfiguredService | core/encryption.py:150-202 | a configured service is well formed and holds under each id the key derived from the last value in source order |
| BlindIndex.MessageInjective | core/blind_index.py:50-60 | different tenants or versions never share a message, version 1 included |
| BlindIndex.MessageText | core/blind_index.py:50-60 | the authenticated messages, letter by letter |
| BlindIndex.NormalizeShape | core/blind_index.py:26-32 | normalisation gives the default or a version, and leaves versions alone |
| BlindIndex.CurrentMeaning | core/blind_index.py:35-36 | new rows are written under the version the setting names, and under `v1` if it names none |
| BlindIndex.PreviousMeaning | core/blind_index.py:39-47 | a named previous version is in the window exactly when it is not the current one |
| BlindIndex.SearchSecretSet | core/blind_index.py:92-109 | one or two distinct secrets, the current one first, and exactly those of the current and previous version |
| BlindIndex.RowCovered | core/blind_index.py:80-109 | a row written under a version is covered for every reader whose current version it is or who names it as the previous one, and, if HMAC does not collide, for no other |
| BlindIndex.TenantsApart | core/blind_index.py:50-65 | a row of one tenant is never covered by the secrets of another, if HMAC does not collide |
| Migrations.Collector.Visit | scripts/verify_no_blind_django_ddl_for_alembic_owned_tables.py:67-89 | a visit appends the issues of its operation to the shared list |
| Migrations.CollectBlindDdlIssues | scripts/verify_no_blind_django_ddl_for_alembic_owned_tables.py:58-93 | the collected list is the issues of all operations in order |
| Migrations.Exact | scripts/verify_no_blind_django_ddl_for_alembic_owned_tables.py:58-93 | the report is the offences of the executed operations, in order, if and only if no issue comes from inside a state side |
| Migrations.PlainStateSilent | scripts/verify_no_blind_django_ddl_for_alembic_owned_tables.py:68-74 | only a wrapper inside a state side can raise such an issue |
| Migrations.NestedStateReported | scripts/verify_no_blind_django_ddl_for_alembic_owned_tables.py:68-74 | a wrapper inside a state side is reported although nothing of it is executed |
| Migrations.LookupMeaning | scripts/verify_no_blind_django_ddl_for_alembic_owned_tables.py:34-55 | a registered model is looked up under its own table in any letter case, any other under the default name |
| Migrations.CleanReport | scripts/verify_no_blind_django_ddl_for_alembic_owned_tables.py:38-93 | nothing is reported exactly when no table looked up outside state sides is Alembic-owned |
| Migrations.Reliable | scripts/verify_no_blind_django_ddl_for_alembic_owned_tables.py:38-93 | whatever tables Alembic owns, a clean report means that the migration touches none of them, if and only if every table touched is looked up |
| Migrations.Decisive | scripts/verify_no_blind_django_ddl_for_alembic_owned_tables.py:38-93 | the verdict is right both ways, whatever is owned, if and only if the tables touched are exactly those looked up |
| Migrations.Sound | scripts/verify_no_blind_django_ddl_for_alembic_owned_tables.py:58-93 | an executed operation whose lookup gives what it touches is reported for every owned table, however deep the nesting |
| Migrations.TracedIsSeen | scripts/verify_no_blind_django_ddl_for_alembic_owned_tables.py:58-93 | if that holds of everything executed and no wrapper lies in a state side, the verdict is right |
| Migrations.BlindSpots | scripts/verify_no_blind_django_ddl_for_alembic_owned_tables.py:19-50 | four kinds of operation on an owned table are executed and not reported: without `model_name`, of an unlisted class, raw SQL, and a model created under another table than the lookup gives |
| Migrations.CheckMigration | scripts/verify_state_only_mirror_contract.py:37-76 | the nested loops report, for one migration, the listed issues in order |
| Migrations.CollectStateOnlyMirrorIssues | scripts/verify_state_only_mirror_contract.py:27-78 | the reports of the contracts' migrations one after the other in the order of their names; nothing exactly when none of them has an issue |
| Migrations.MirrorContract | scripts/verify_state_only_mirror_contract.py:38-76 | a migration passes exactly when it is wrappers with RunSQL only and creates every contract's model in state; then all it executes is RunSQL |
| Migrations.MirrorReport | scripts/verify_state_only_mirror_contract.py:27-78 | nothing is reported exactly when every contract that names a migration finds it there, with wrappers of RunSQL only and its model created in state |
| Migrations.MissingReported | scripts/verify_state_only_mirror_contract.py:36-40 | a contract that names a missing migration is reported |
| Migrations.MirrorPassesBlindDdl | scripts/verify_state_only_mirror_contract.py:46-63 | a mirror migration passes the other checker if and only if no issue comes from inside its state sides |
| RouteSync.SortedSpec | scripts/sync_route_decorators.py:188-188 | the descending sort keeps the insertions, and equal lines keep their order |
| RouteSync.Lines.InsertAll | scripts/sync_route_decorators.py:188-189 | one-by-one insertion in descending order equals inserting everything at once above the original lines |
| RouteSync.WovenAt | scripts/sync_route_decorators.py:188-189 | the decorators for a line stand directly above it, with nothing else between |
| RouteSync.EraseRestores | scripts/sync_route_decorators.py:185-190 | deleting the inserted lines, the import among them, restores the file |
| RouteSync.Lines.EnsureRouteImport | scripts/sync_route_decorators.py:142-158 | leaves a file with the import alone, and otherwise inserts it behind the last future import, before the first import, or at the top |
| RouteSync.ImportPlace | scripts/sync_route_decorators.py:146-157 | the import goes directly behind the last future import, without one directly before the first import, else to the top |
| RouteSync.SecondRun | scripts/sync_route_decorators.py:142-144 | a second run adds no import |
| RouteSync.Lines.Update | scripts/sync_route_decorators.py:185-190 | one file's update: the import, then the decorators at the line numbers of before |
| RouteSync.Landing | scripts/sync_route_decorators.py:185-190 | which line ends up below the decorators, with and without the import present |
| RouteSync.LandsOnTarget | scripts/sync_route_decorators.py:185-190 | for every file and line, the line below the decorators is by position the one they were made for if and only if the import was present or goes below it |

## Left out

- Symbolic links, path resolution through them, Windows paths and access lists, and other processes writing at the same time.
- Corrupt zip members: opening a zip gives its members or fails as a whole; SHA-256, JSON and zip decoding are parameters.
- Text outside ASCII where Python is wider: `lower()` maps A to Z only, and digits in key versions are 0 to 9.
- File metadata copied by `copy2`, printed output, exit texts, argument parsing and report files.
- `validate_schema` is an input of the repair run, and the sample rows of a failed check are not modelled; columns a row does not have read as NULL.
- Names of repair steps and checks: counts are identified by position in `STEPS` and `CHECKS`.
- RepairScript.Connection.Execute: does not model foreign keys, row-level security or errors of individual statements beyond a failing step, because the scripts rely on none of them succeeding.
- `_storage_rows` ordering and limit, table counts, and the object store client: rows and the store are inputs of `VerifyStorageObjects`.
- RepairScript.StorageClean: needs primary keys that are not NULL, as the table declaration demands.
- `match_queries.build_client_counts_query`, EXPLAIN output, timing and the agency set-up of the benchmark; negative `BENCH_NUM_ROWS` and `BENCH_NUM_LOCATIONS`.
- NUMERIC values that are not numbers; range columns hold real bounds.
- Parsing of `urls.py` and of decorators, the collection of function locations, and files whose `splitlines` differ from the parser's line count.
- Base64 decoding of malformed text, and the secret lookup and tenant resolution around `blind_index`.
- The Qt application, hub manager, HTTP checks, OpenBao, SigNoz and token-grep scripts: user interface or calls into other systems.
