/**
 Reading a lockfile: what happens to an already-parsed lockfile document
 before it is handed to the installer. A missing file means "no lockfile";
 a document in the legacy single-project shape is migrated into the
 `importers` shape under the root importer `.`; and the document's
 `lockfileVersion` is checked against the version the caller wants, which
 either accepts it (possibly with a "newer version" warning), ignores it
 with a warning, or rejects it with a breaking-change error.
 */
module LockfileRead {
  import opened Types

  /** The lockfile format version this installer writes (its value is not part of this model). */
  const LOCKFILE_VERSION: real

  /** The file name of the wanted lockfile in a project directory (its value is not part of this model). */
  const WANTED_LOCKFILE: string

  /** One importer (project) of a lockfile: its specifiers and the dependency fields it carries. */
  datatype ProjectSnapshot = ProjectSnapshot(specifiers: Deps, depFields: map<DependenciesField, Deps>)

  /**
   A parsed lockfile document. `specifiers` and `depFields` are the top-level
   fields of the legacy single-project shape (a field in `depFields` is one
   that is present); `importers` is the field of the current shape. A
   `lockfileVersion` that is missing is `None`.
   */
  datatype Lockfile = Lockfile(
    lockfileVersion: Option<real>,
    specifiers: Option<Deps>,
    depFields: map<DependenciesField, Deps>,
    importers: Option<map<string, ProjectSnapshot>>)

  /** The error object a failed file read throws, carrying its errno code when it has one. */
  datatype IoError = IoError(code: Option<string>, message: string)

  /** What reading and parsing the YAML file gave: a document, an empty document, or a thrown error. */
  datatype YamlRead = Parsed(doc: Lockfile) | EmptyDocument | Failed(err: IoError)

  /** The options of a read: the version the caller wants, if any, and whether to ignore an incompatible file. */
  datatype ReadOptions = ReadOptions(wantedVersion: Option<real>, ignoreIncompatible: bool)

  /** The errors a read throws: a read error passed through unchanged, or a breaking change naming the file. */
  datatype ReadError = Rethrown(err: IoError) | LockfileBreakingChangeError(lockfilePath: string)

  /** The value of a read: a lockfile, `null`, or a thrown error. */
  datatype ReadResult = Found(lockfile: Lockfile) | NoLockfile | Raised(error: ReadError)

  /** The warnings a read logs, each with the prefix it is logged under. */
  datatype Warning =
    | NewerVersionWarning(wantedVersion: real, prefix: string)
    | IgnoringIncompatibleWarning(lockfilePath: string, prefix: string)

  /** What a read returns or throws, together with the warnings it logged on the way. */
  datatype ReadReport = ReadReport(result: ReadResult, warnings: seq<Warning>)

  /** The errno code of a file that does not exist. */
  const ENOENT: string := "ENOENT"

  /** A document is in the legacy shape when it has a top-level `specifiers` field. */
  predicate IsLegacyShape(doc: Lockfile)
  {
    doc.specifiers.Some?
  }

  /**
   The legacy shape migrated all at once: the top-level specifiers and every
   present top-level dependency field become the root importer `.`, replacing
   any `importers` the document had, and leave the top level.
   */
  function Migrated(doc: Lockfile): Lockfile
  {
    if IsLegacyShape(doc) then
      doc.(specifiers := None,
           depFields := map[],
           importers := Some(map["." := ProjectSnapshot(doc.specifiers.value, doc.depFields)]))
    else
      doc
  }

  /**
   The migration as the reader performs it: replace `importers`, drop the
   top-level specifiers, then visit the dependency fields one by one, moving
   each present one under the root importer.
   */
  method MigrateLegacyShape(doc: Lockfile) returns (r: Lockfile)
    ensures r == Migrated(doc)
  {
    r := doc;
    if r.specifiers.Some? {
      var root := ProjectSnapshot(r.specifiers.value, map[]);
      r := r.(importers := Some(map["." := root]), specifiers := None);
      for i := 0 to |DEPENDENCIES_FIELDS|
        invariant r.lockfileVersion == doc.lockfileVersion && r.specifiers.None?
        invariant r.importers == Some(map["." := root])
        invariant root.specifiers == doc.specifiers.value
        invariant forall f :: f in root.depFields <==> f in doc.depFields && FieldIndex(f) < i
        invariant forall f :: f in r.depFields <==> f in doc.depFields && FieldIndex(f) >= i
        invariant forall f :: f in root.depFields ==> root.depFields[f] == doc.depFields[f]
        invariant forall f :: f in r.depFields ==> r.depFields[f] == doc.depFields[f]
      {
        var depType := DEPENDENCIES_FIELDS[i];
        assert FieldIndex(depType) == i;
        if depType in r.depFields {
          root := root.(depFields := root.depFields[depType := r.depFields[depType]]);
          r := r.(importers := Some(map["." := root]), depFields := r.depFields - {depType});
        }
      }
      assert root.depFields == doc.depFields;
      assert r.depFields == map[];
    }
  }

  /**
   The version gate: a document is compatible when the caller wants no
   particular version, or when the integer parts of both versions agree. A
   missing document version never agrees with a wanted one.
   */
  predicate Compatible(lockfileVersion: Option<real>, wantedVersion: Option<real>)
  {
    wantedVersion.None? || (lockfileVersion.Some? && lockfileVersion.value.Floor == wantedVersion.value.Floor)
  }

  /** The document was written with a version greater than the wanted one. */
  predicate Newer(lockfileVersion: Option<real>, wantedVersion: Option<real>)
  {
    wantedVersion.Some? && lockfileVersion.Some? && lockfileVersion.value > wantedVersion.value
  }

  /** What the reader does with an empty or incompatible document: ignore it with a warning, or throw. */
  function Reject(lockfilePath: string, prefix: string, opts: ReadOptions): ReadReport
  {
    if opts.ignoreIncompatible then
      ReadReport(NoLockfile, [IgnoringIncompatibleWarning(lockfilePath, prefix)])
    else
      ReadReport(Raised(LockfileBreakingChangeError(lockfilePath)), [])
  }

  /** The read of one lockfile file, as a function of what parsing the file gave. */
  function ReadSpec(lockfilePath: string, prefix: string, input: YamlRead, opts: ReadOptions): ReadReport
  {
    match input
    case Failed(err) =>
      if err.code == Some(ENOENT) then ReadReport(NoLockfile, []) else ReadReport(Raised(Rethrown(err)), [])
    case EmptyDocument =>
      Reject(lockfilePath, prefix, opts)
    case Parsed(doc) =>
      var lockfile := Migrated(doc);
      if Compatible(lockfile.lockfileVersion, opts.wantedVersion) then
        var warnings := if Newer(lockfile.lockfileVersion, opts.wantedVersion)
                        then [NewerVersionWarning(opts.wantedVersion.value, prefix)] else [];
        ReadReport(Found(lockfile), warnings)
      else
        Reject(lockfilePath, prefix, opts)
  }

  /**
   Reads the lockfile at `lockfilePath`, given what parsing that file gave.
   It follows the reader's own control flow and migrates with the loop of
   MigrateLegacyShape; ReadSpec and the lemmas about it carry the properties.
   */
  method Read(lockfilePath: string, prefix: string, input: YamlRead, opts: ReadOptions) returns (report: ReadReport)
    ensures report == ReadSpec(lockfilePath, prefix, input, opts)
  {
    if input.Failed? {
      if input.err.code != Some(ENOENT) {
        return ReadReport(Raised(Rethrown(input.err)), []);
      }
      return ReadReport(NoLockfile, []);
    }
    if input.Parsed? {
      var lockfile := MigrateLegacyShape(input.doc);
      if opts.wantedVersion.None? ||
         (lockfile.lockfileVersion.Some? && lockfile.lockfileVersion.value.Floor == opts.wantedVersion.value.Floor)
      {
        var warnings := [];
        if opts.wantedVersion.Some? && lockfile.lockfileVersion.Some? &&
           lockfile.lockfileVersion.value > opts.wantedVersion.value
        {
          warnings := [NewerVersionWarning(opts.wantedVersion.value, prefix)];
        }
        return ReadReport(Found(lockfile), warnings);
      }
    }
    if opts.ignoreIncompatible {
      return ReadReport(NoLockfile, [IgnoringIncompatibleWarning(lockfilePath, prefix)]);
    }
    return ReadReport(Raised(LockfileBreakingChangeError(lockfilePath)), []);
  }

  /** The path of a file inside a directory. */
  function JoinPath(dir: string, name: string): string
  {
    dir + "/" + name
  }

  /** Reads the current lockfile `lock.yaml` kept in the virtual store directory. */
  method ReadCurrentLockfile(virtualStoreDir: string, input: YamlRead, opts: ReadOptions) returns (report: ReadReport)
    ensures report == ReadSpec(JoinPath(virtualStoreDir, "lock.yaml"), virtualStoreDir, input, opts)
  {
    report := Read(JoinPath(virtualStoreDir, "lock.yaml"), virtualStoreDir, input, opts);
  }

  /** Reads the wanted lockfile kept in the project directory. */
  method ReadWantedLockfile(pkgPath: string, input: YamlRead, opts: ReadOptions) returns (report: ReadReport)
    ensures report == ReadSpec(JoinPath(pkgPath, WANTED_LOCKFILE), pkgPath, input, opts)
  {
    report := Read(JoinPath(pkgPath, WANTED_LOCKFILE), pkgPath, input, opts);
  }

  /** A fresh importer entry: empty specifiers and an empty `dependencies` field. */
  const EmptyProjectSnapshot: ProjectSnapshot := ProjectSnapshot(map[], map[Dependencies := map[]])

  /**
   Builds an empty lockfile with one empty importer per importer id, folding
   the ids into a map. A version that is missing or zero falls back to
   LOCKFILE_VERSION.
   */
  method CreateLockfileObject(importerIds: seq<string>, lockfileVersion: Option<real>) returns (lockfile: Lockfile)
    ensures lockfile.importers.Some?
    ensures lockfile.importers.value.Keys == Names(importerIds)
    ensures forall id :: id in lockfile.importers.value ==> lockfile.importers.value[id] == EmptyProjectSnapshot
    ensures lockfile.lockfileVersion ==
              Some(if lockfileVersion.None? || lockfileVersion.value == 0.0 then LOCKFILE_VERSION else lockfileVersion.value)
    ensures lockfile.specifiers.None? && lockfile.depFields == map[]
  {
    var importers: map<string, ProjectSnapshot> := map[];
    for i := 0 to |importerIds|
      invariant importers.Keys == Names(importerIds[..i])
      invariant forall id :: id in importers ==> importers[id] == EmptyProjectSnapshot
    {
      NamesSnoc(importerIds, i);
      importers := importers[importerIds[i] := EmptyProjectSnapshot];
    }
    assert importerIds[..|importerIds|] == importerIds;
    var version := if lockfileVersion.None? || lockfileVersion.value == 0.0 then LOCKFILE_VERSION else lockfileVersion.value;
    lockfile := Lockfile(Some(version), None, map[], Some(importers));
  }

  // Properties of the read.

  /** A missing file reads as "no lockfile"; any other read error is thrown unchanged. Neither logs anything. */
  lemma ReadErrorHandling(lockfilePath: string, prefix: string, err: IoError, opts: ReadOptions)
    ensures var report := ReadSpec(lockfilePath, prefix, Failed(err), opts);
            && report.warnings == []
            && (report.result == NoLockfile <==> err.code == Some(ENOENT))
            && (err.code != Some(ENOENT) ==> report.result == Raised(Rethrown(err)))
  {
  }

  /**
   Migrating the legacy shape leaves a single root importer `.` whose
   specifiers are the old top-level specifiers and whose dependency fields
   are exactly the top-level ones that were present, with their values; no
   legacy field remains at the top level, and the version is untouched.
   */
  lemma LegacyShapeMigrated(doc: Lockfile)
    requires IsLegacyShape(doc)
    ensures var m := Migrated(doc);
            && m.importers.Some? && m.importers.value.Keys == {"."}
            && m.importers.value["."].specifiers == doc.specifiers.value
            && (forall f :: f in m.importers.value["."].depFields <==> f in doc.depFields)
            && (forall f :: f in doc.depFields ==> m.importers.value["."].depFields[f] == doc.depFields[f])
            && !IsLegacyShape(m) && m.depFields == map[]
            && m.lockfileVersion == doc.lockfileVersion
  {
  }

  /** A document without top-level specifiers passes through the migration unchanged. */
  lemma CurrentShapeUnchanged(doc: Lockfile)
    requires !IsLegacyShape(doc)
    ensures Migrated(doc) == doc
  {
  }

  /** Migrating twice is migrating once: the migrated document is never in the legacy shape. */
  lemma MigrationIdempotent(doc: Lockfile)
    ensures !IsLegacyShape(Migrated(doc))
    ensures Migrated(Migrated(doc)) == Migrated(doc)
  {
  }

  /**
   A parsed document is returned, migrated, exactly when it passes the
   version gate; a document passes whenever the caller wants no version.
   */
  lemma AcceptedExactlyWhenCompatible(lockfilePath: string, prefix: string, doc: Lockfile, opts: ReadOptions)
    ensures var report := ReadSpec(lockfilePath, prefix, Parsed(doc), opts);
            && (report.result.Found? <==> Compatible(doc.lockfileVersion, opts.wantedVersion))
            && (report.result.Found? ==> report.result.lockfile == Migrated(doc))
            && (opts.wantedVersion.None? ==> report == ReadReport(Found(Migrated(doc)), []))
  {
  }

  /**
   The "newer version" warning is logged exactly when the document is
   accepted, a version is wanted and the document's is greater; it names the
   wanted version and never replaces the lockfile by a failure.
   */
  lemma NewerVersionWarningExactly(lockfilePath: string, prefix: string, doc: Lockfile, opts: ReadOptions)
    ensures var report := ReadSpec(lockfilePath, prefix, Parsed(doc), opts);
            && ((exists w :: NewerVersionWarning(w, prefix) in report.warnings) <==>
                  Compatible(doc.lockfileVersion, opts.wantedVersion) && Newer(doc.lockfileVersion, opts.wantedVersion))
            && (Compatible(doc.lockfileVersion, opts.wantedVersion) && Newer(doc.lockfileVersion, opts.wantedVersion) ==>
                  report == ReadReport(Found(Migrated(doc)), [NewerVersionWarning(opts.wantedVersion.value, prefix)]))
  {
  }

  /**
   An empty document, or one that fails the version gate, is either ignored
   (no lockfile, one "Ignoring" warning naming the file) when the caller
   allows it, or rejected with a breaking-change error naming the file.
   */
  lemma IncompatibleIgnoredOrRejected(lockfilePath: string, prefix: string, input: YamlRead, opts: ReadOptions)
    requires input.EmptyDocument? || (input.Parsed? && !Compatible(input.doc.lockfileVersion, opts.wantedVersion))
    ensures var report := ReadSpec(lockfilePath, prefix, input, opts);
            && (opts.ignoreIncompatible ==>
                  report == ReadReport(NoLockfile, [IgnoringIncompatibleWarning(lockfilePath, prefix)]))
            && (!opts.ignoreIncompatible ==>
                  report == ReadReport(Raised(LockfileBreakingChangeError(lockfilePath)), []))
  {
  }

  /**
   A compatible document is never ignored and never rejected, and the only
   warning it logs is the "newer version" one, exactly when it is newer.
   */
  lemma CompatibleNeverRejected(lockfilePath: string, prefix: string, doc: Lockfile, opts: ReadOptions)
    requires Compatible(doc.lockfileVersion, opts.wantedVersion)
    ensures var report := ReadSpec(lockfilePath, prefix, Parsed(doc), opts);
            && report.result == Found(Migrated(doc))
            && report.warnings == if Newer(doc.lockfileVersion, opts.wantedVersion)
                                  then [NewerVersionWarning(opts.wantedVersion.value, prefix)] else []
  {
  }

  /** With ignoreIncompatible set, a read never throws a breaking-change error. */
  lemma IgnoringNeverBreaks(lockfilePath: string, prefix: string, input: YamlRead, opts: ReadOptions)
    requires opts.ignoreIncompatible
    ensures !ReadSpec(lockfilePath, prefix, input, opts).result.Raised? ||
            ReadSpec(lockfilePath, prefix, input, opts).result.error.Rethrown?
  {
  }

  /** A document carrying the version the caller wants in the current shape is read back as it is, silently. */
  lemma FreshLockfileReadsBack(lockfilePath: string, prefix: string, lockfile: Lockfile, ignoreIncompatible: bool)
    requires lockfile.specifiers.None? && lockfile.lockfileVersion.Some?
    ensures ReadSpec(lockfilePath, prefix, Parsed(lockfile), ReadOptions(lockfile.lockfileVersion, ignoreIncompatible))
            == ReadReport(Found(lockfile), [])
  {
  }

  /** A compatible document that is newer than wanted differs from it only below the integer part. */
  lemma NewerCompatibleIsMinorAhead(v: real, w: real)
    requires Compatible(Some(v), Some(w)) && Newer(Some(v), Some(w))
    ensures w < v < (w.Floor + 1) as real
  {
  }

  /** The legacy document with one specifier and one dependency migrates into the root importer. */
  lemma LegacyExample()
    ensures var deps := map[Dependencies := map["lodash" := "4.17.21"]];
            var doc := Lockfile(Some(5.0), Some(map["lodash" := "^4.0.0"]), deps, None);
            Migrated(doc) == Lockfile(Some(5.0), None, map[],
                                      Some(map["." := ProjectSnapshot(map["lodash" := "^4.0.0"], deps)]))
  {
  }

  /** Version 6.0 against a wanted 5 is ignored or rejected; 5.1 against a wanted 5.0 is accepted with a warning. */
  lemma VersionGateExamples(lockfilePath: string, prefix: string)
    ensures var doc := Lockfile(Some(6.0), None, map[], Some(map[]));
            && ReadSpec(lockfilePath, prefix, Parsed(doc), ReadOptions(Some(5.0), false)).result
               == Raised(LockfileBreakingChangeError(lockfilePath))
            && ReadSpec(lockfilePath, prefix, Parsed(doc), ReadOptions(Some(5.0), true)).result == NoLockfile
    ensures var doc := Lockfile(Some(5.1), None, map[], Some(map[]));
            ReadSpec(lockfilePath, prefix, Parsed(doc), ReadOptions(Some(5.0), false))
            == ReadReport(Found(doc), [NewerVersionWarning(5.0, prefix)])
  {
  }
}
