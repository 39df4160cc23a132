# pnpm lockfile reading and dependency removal, modelled in Dafny

This project models two small pieces of pnpm's installation core.

- **Reading a lockfile** (`packages/lockfile-file/src/read.ts`). The YAML file has already been read and parsed. The reader works on what that gave:
  - A missing file (errno `ENOENT`) means "no lockfile". Any other read error is thrown unchanged.
  - A document in the legacy single-project shape has a top-level `specifiers` field. It is migrated into `importers['.']` together with every top-level dependency field that is present.
  - The document's `lockfileVersion` is then checked against the version the caller wants. The document is accepted when no version is wanted or when the integer parts agree. An accepted document newer than wanted gets a "newer version" warning.
  - An empty or incompatible document is either ignored, giving "no lockfile" and an "Ignoring" warning, or rejected with `LockfileBreakingChangeError` naming the file.
  - `createLockfileObject` builds an empty lockfile with one empty importer per importer id.
- **Removing dependencies from a manifest** (`packages/supi/src/uninstall/removeDeps.ts`). The names are deleted from the `saveType` field when one is given, otherwise from every dependency field present. They are then deleted from `peerDependencies`. One case returns early, before the peer step: a `saveType` is given and its field is absent. The manifest object is updated in place and returned.

Files and modules:

- `types.dfy`, module `Types`: the dependency fields (`optionalDependencies`, `dependencies`, `devDependencies`) and `DEPENDENCIES_FIELDS`.
- `lockfile_read.dfy`, module `LockfileRead`: the read, its migration and version gate, and `createLockfileObject`.
- `remove_deps.dfy`, module `RemoveDeps`: the manifest object and the removal.

How the model is built:

- The parsed lockfile is a fresh object that only the reader holds, so it is modelled as a datatype value.
- The migration loop is the method `MigrateLegacyShape`. It is proved equal to the declarative `Migrated`.
- `ReadSpec` is the read as a pure function. The method `Read` and its two callers are proved to compute it. The read's properties are lemmas about `ReadSpec`.
- The manifest belongs to the caller and comes back as the same object, so it is the class `ProjectManifest`.
- `RemoveDeps` changes the manifest name by name in loops. It is proved to give the set-wise `Removed`. The removal's properties are lemmas about `Removed`.

Details of the version gate:

- When a version is wanted, a document with no `lockfileVersion` is incompatible.
- An empty document is ignored or rejected like an incompatible one.
- When no version is wanted, any document is accepted.

## Model

| member | source | states |
|---|---|---|
| `LockfileRead.MigrateLegacyShape` | packages/lockfile-file/src/read.ts:53-66 | the step-by-step migration (replace importers, drop specifiers, move each present dependency field) gives exactly the declarative migration `Migrated` |
| `LockfileRead.Read` | packages/lockfile-file/src/read.ts:35-88 | reading, migrating and gating a parsed YAML result returns exactly the report (result and warnings) `ReadSpec` describes |
| `LockfileRead.ReadCurrentLockfile` | packages/lockfile-file/src/read.ts:13-22 | reads `lock.yaml` inside the virtual store directory, logging under that directory as prefix |
| `LockfileRead.ReadWantedLockfile` | packages/lockfile-file/src/read.ts:24-33 | reads the wanted lockfile inside the project directory, logging under that directory as prefix |
| `LockfileRead.CreateLockfileObject` | packages/lockfile-file/src/read.ts:90-107 | the importers' key set equals the set of importer ids, each mapped to empty specifiers and an empty `dependencies` field; the version is the given one, or LOCKFILE_VERSION when it is missing or 0 |
| `LockfileRead.ReadErrorHandling` | packages/lockfile-file/src/read.ts:43-51 | the read gives "no lockfile" exactly when the error code is ENOENT; any other error is thrown unchanged; no warning either way |
| `LockfileRead.LegacyShapeMigrated` | packages/lockfile-file/src/read.ts:53-65 | a legacy document ends with one importer `.` holding the old specifiers and exactly the dependency fields that were present, values unchanged; no legacy field stays at the top level; the version is untouched |
| `LockfileRead.CurrentShapeUnchanged` | packages/lockfile-file/src/read.ts:53 | a document without top-level specifiers passes through the migration unchanged |
| `LockfileRead.MigrationIdempotent` | packages/lockfile-file/src/read.ts:53-59 | a migrated document is never in the legacy shape, so migrating again changes nothing |
| `LockfileRead.AcceptedExactlyWhenCompatible` | packages/lockfile-file/src/read.ts:67-79 | a parsed document is returned exactly when it passes the version gate, and then it is the migrated document; with no wanted version any document is returned with no warning |
| `LockfileRead.NewerVersionWarningExactly` | packages/lockfile-file/src/read.ts:69-77 | the "newer version" warning appears exactly when the document is accepted and its version exceeds the wanted one; the result is still the lockfile |
| `LockfileRead.IncompatibleIgnoredOrRejected` | packages/lockfile-file/src/read.ts:67-87 | an empty or incompatible document gives "no lockfile" plus one "Ignoring" warning naming the file when ignoreIncompatible is set, and a LockfileBreakingChangeError naming the file otherwise |
| `LockfileRead.CompatibleNeverRejected` | packages/lockfile-file/src/read.ts:67-78 | a compatible document is never ignored or rejected; it logs the "newer version" warning when it is newer than wanted and no warning otherwise |
| `LockfileRead.IgnoringNeverBreaks` | packages/lockfile-file/src/read.ts:80-87 | with ignoreIncompatible set, the only error a read can throw is a read error passed through |
| `LockfileRead.FreshLockfileReadsBack` | packages/lockfile-file/src/read.ts:69-77 | a current-shape document read with its own version as the wanted version is returned as it is, with no warning |
| `LockfileRead.NewerCompatibleIsMinorAhead` | packages/lockfile-file/src/read.ts:69-70 | a compatible document newer than wanted lies strictly between the wanted version and the next integer |
| `LockfileRead.LegacyExample` | packages/lockfile-file/src/read.ts:53-65 | a legacy document with `lodash` in `specifiers` and `dependencies` migrates into importer `.` with both maps and nothing left at the top level |
| `LockfileRead.VersionGateExamples` | packages/lockfile-file/src/read.ts:69-87 | version 6.0 against a wanted 5.0 is rejected, or ignored when allowed; 5.1 against a wanted 5.0 is accepted with the newer-version warning |
| `RemoveDeps.RemoveDeps` | packages/supi/src/uninstall/removeDeps.ts:8-44 | returns the same manifest object, whose dependency fields and peer dependencies become `Removed` of their old values |
| `RemoveDeps.RemoveFromField` | packages/supi/src/uninstall/removeDeps.ts:21-23 | deleting the names one by one from a present field leaves it without those names; every other field and `peerDependencies` are unchanged |
| `RemoveDeps.SaveTypeFieldCleared` | packages/supi/src/uninstall/removeDeps.ts:16-23 | with a present saveType field, no removed name stays a key of that field, and every other key keeps its value |
| `RemoveDeps.SaveTypeOtherFieldsUntouched` | packages/supi/src/uninstall/removeDeps.ts:16-23 | with a saveType, every other dependency field keeps its presence and its contents |
| `RemoveDeps.AbsentSaveTypeUnchanged` | packages/supi/src/uninstall/removeDeps.ts:19 | with a saveType whose field is absent, the manifest is unchanged, `peerDependencies` included |
| `RemoveDeps.AllFieldsCleared` | packages/supi/src/uninstall/removeDeps.ts:24-32 | without a saveType, the same fields are present afterwards and each loses exactly the removed names |
| `RemoveDeps.PeerDependenciesCleared` | packages/supi/src/uninstall/removeDeps.ts:33-37 | when the peer step is reached, a present `peerDependencies` loses exactly the removed names; an absent one stays absent; after the early return it is unchanged |
| `RemoveDeps.OnlyRemovedNamesRemoved` | packages/supi/src/uninstall/removeDeps.ts:21-36 | nothing is added to any field, and every entry whose name is not being removed survives with its value |
| `RemoveDeps.RemovedIdempotent` | packages/supi/src/uninstall/removeDeps.ts:21-36 | removing the same names twice leaves the manifest as removing them once |

## Left out

- Reading the file and parsing YAML are not modelled. The read takes what parsing gave: a document, an empty document, or a thrown error with its optional errno code.
- The logger is not modelled. Warnings are returned as values that carry the data of the message (the wanted version or the lockfile path) and the prefix. The message text is not modelled.
- `packageManifestLogger.debug` and the `prefix` option of the removal are left out. They only log.
- `path.join` is modelled as joining with `/`. Path normalisation is not modelled.
- The values of `LOCKFILE_VERSION` and `WANTED_LOCKFILE` (from `@pnpm/constants`) are not part of this model. They are constants with no fixed value.
- The contents of `DEPENDENCIES_FIELDS` (from `@pnpm/types`) are taken to be `optionalDependencies`, `dependencies` and `devDependencies`, in that order.
- Versions are exact reals, not IEEE doubles. A non-numeric `lockfileVersion`, which JavaScript would coerce, is not modelled. A missing one is modelled.
- YAML `null` values are not modelled. In the code a null dependency field is not moved by the migration. A field is either absent or a map.
- Lockfile fields other than the version, the legacy fields and `importers` (for example `packages`) are not modelled. The read never touches them.
- Manifest fields other than the dependency fields and `peerDependencies` are not modelled. The removal never touches them.
- `MigrateLegacyShape` works on a value, not in place. The parsed object belongs to the reader alone, so the difference cannot be observed.
- `RemoveDeps`: the dependency maps inside the manifest are values. If the same JavaScript object sat under two fields, deleting from one would also delete from the other. That aliasing is not captured.
- `RemoveDeps`: line 17 assigns an absent saveType field to itself. That creates a key whose value is `undefined`, which is not visible once the manifest is serialised, so it is not modelled.
- Maps are unordered. The key order of the source's objects is not modelled: `delete` keeps the order of the remaining keys and the importers are inserted in id order.
