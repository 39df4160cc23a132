/**
 Removing packages from a project manifest during uninstall. The names are
 deleted from one dependency field when a save type is given, otherwise from
 every dependency field the manifest has, and then from its
 `peerDependencies`. The manifest is updated in place and returned.
 */
module RemoveDeps {
  import opened Types

  /** The dependency-related part of a manifest, as a value. */
  datatype Manifest = Manifest(depFields: map<DependenciesField, Deps>, peerDependencies: Option<Deps>)

  /** A project manifest object; a dependency field is present when it is a key of `depFields`. */
  class ProjectManifest {
    var depFields: map<DependenciesField, Deps>
    var peerDependencies: Option<Deps>

    /** The manifest's current dependency fields and peer dependencies. */
    function Value(): Manifest
      reads this
    {
      Manifest(depFields, peerDependencies)
    }

    constructor (m: Manifest)
      ensures Value() == m
    {
      depFields := m.depFields;
      peerDependencies := m.peerDependencies;
    }
  }

  /** `peerDependencies` without the removed names; an absent one stays absent. */
  function PeersWithout(peers: Option<Deps>, names: set<string>): Option<Deps>
  {
    if peers.Some? then Some(peers.value - names) else None
  }

  /**
   The manifest after the removal, described set-wise. With a save type whose
   field is absent nothing changes at all, not even `peerDependencies`.
   */
  function Removed(m: Manifest, removedPackages: seq<string>, saveType: Option<DependenciesField>): Manifest
  {
    var names := Names(removedPackages);
    match saveType
    case Some(f) =>
      if f !in m.depFields then m
      else Manifest(m.depFields[f := m.depFields[f] - names], PeersWithout(m.peerDependencies, names))
    case None =>
      Manifest(map g | g in m.depFields :: m.depFields[g] - names, PeersWithout(m.peerDependencies, names))
  }

  /**
   Deletes `removedPackages` from `manifest` in place, one name at a time,
   and returns the same manifest object.
   */
  method RemoveDeps(manifest: ProjectManifest, removedPackages: seq<string>, saveType: Option<DependenciesField>)
    returns (r: ProjectManifest)
    modifies manifest
    ensures r == manifest
    ensures manifest.Value() == Removed(old(manifest.Value()), removedPackages, saveType)
  {
    if saveType.Some? {
      var field := saveType.value;
      if field !in manifest.depFields {
        return manifest;
      }
      RemoveFromField(manifest, field, removedPackages);
    } else {
      for k := 0 to |DEPENDENCIES_FIELDS|
        invariant manifest.depFields.Keys == old(manifest.depFields).Keys
        invariant forall g :: g in manifest.depFields ==>
                    manifest.depFields[g] ==
                    if FieldIndex(g) < k then old(manifest.depFields)[g] - Names(removedPackages)
                    else old(manifest.depFields)[g]
        invariant manifest.peerDependencies == old(manifest.peerDependencies)
      {
        var depField := DEPENDENCIES_FIELDS[k];
        assert FieldIndex(depField) == k;
        if depField in manifest.depFields {
          RemoveFromField(manifest, depField, removedPackages);
        }
      }
    }
    if manifest.peerDependencies.Some? {
      for i := 0 to |removedPackages|
        invariant manifest.peerDependencies.Some?
        invariant manifest.peerDependencies.value ==
                  old(manifest.peerDependencies).value - Names(removedPackages[..i])
        invariant manifest.depFields == Removed(old(manifest.Value()), removedPackages, saveType).depFields
      {
        NamesSnoc(removedPackages, i);
        manifest.peerDependencies := Some(manifest.peerDependencies.value - {removedPackages[i]});
      }
      assert removedPackages[..|removedPackages|] == removedPackages;
    }
    return manifest;
  }

  /** The inner loop over the names for one present dependency field. */
  method RemoveFromField(manifest: ProjectManifest, depField: DependenciesField, removedPackages: seq<string>)
    requires depField in manifest.depFields
    modifies manifest
    ensures manifest.depFields == old(manifest.depFields)[depField := old(manifest.depFields)[depField] - Names(removedPackages)]
    ensures manifest.peerDependencies == old(manifest.peerDependencies)
  {
    ghost var before := old(manifest.depFields);
    assert Names(removedPackages[..0]) == {};
    assert before[depField] - {} == before[depField];
    assert before[depField := before[depField]] == before;
    for i := 0 to |removedPackages|
      invariant depField in manifest.depFields
      invariant manifest.depFields ==
                old(manifest.depFields)[depField := old(manifest.depFields)[depField] - Names(removedPackages[..i])]
      invariant manifest.peerDependencies == old(manifest.peerDependencies)
    {
      NamesSnoc(removedPackages, i);
      assert manifest.depFields[depField] - {removedPackages[i]} == before[depField] - Names(removedPackages[..i + 1]);
      manifest.depFields := manifest.depFields[depField := manifest.depFields[depField] - {removedPackages[i]}];
    }
    assert removedPackages[..|removedPackages|] == removedPackages;
  }

  // Properties of the removal.

  /** `sub` is `full` without the names in `names`: same values, and exactly the other keys. */
  ghost predicate Without(sub: Deps, full: Deps, names: set<string>)
  {
    && (forall k :: k in sub <==> k in full && k !in names)
    && (forall k :: k in sub ==> sub[k] == full[k])
  }

  /** With a save type whose field is present, that field loses every removed name and keeps every other entry. */
  lemma SaveTypeFieldCleared(m: Manifest, removedPackages: seq<string>, f: DependenciesField)
    requires f in m.depFields
    ensures var r := Removed(m, removedPackages, Some(f));
            f in r.depFields && Without(r.depFields[f], m.depFields[f], Names(removedPackages))
  {
  }

  /** With a save type, every other dependency field is left exactly as it was, present or absent. */
  lemma SaveTypeOtherFieldsUntouched(m: Manifest, removedPackages: seq<string>, f: DependenciesField, g: DependenciesField)
    requires g != f
    ensures var r := Removed(m, removedPackages, Some(f));
            (g in r.depFields <==> g in m.depFields) && (g in m.depFields ==> r.depFields[g] == m.depFields[g])
  {
  }

  /** With a save type whose field is absent, the manifest comes back unchanged, `peerDependencies` included. */
  lemma AbsentSaveTypeUnchanged(m: Manifest, removedPackages: seq<string>, f: DependenciesField)
    requires f !in m.depFields
    ensures Removed(m, removedPackages, Some(f)) == m
  {
  }

  /** Without a save type, every present dependency field loses the removed names, and absent ones stay absent. */
  lemma AllFieldsCleared(m: Manifest, removedPackages: seq<string>)
    ensures var r := Removed(m, removedPackages, None);
            && r.depFields.Keys == m.depFields.Keys
            && forall g :: g in m.depFields ==> Without(r.depFields[g], m.depFields[g], Names(removedPackages))
  {
  }

  /** Whether the removal reaches the peer step: unless the save type names an absent field. */
  predicate ReachesPeerStep(m: Manifest, saveType: Option<DependenciesField>)
  {
    saveType.None? || saveType.value in m.depFields
  }

  /**
   `peerDependencies` loses every removed name exactly when the peer step is
   reached; an absent `peerDependencies` stays absent either way.
   */
  lemma PeerDependenciesCleared(m: Manifest, removedPackages: seq<string>, saveType: Option<DependenciesField>)
    ensures var r := Removed(m, removedPackages, saveType);
            && (r.peerDependencies.Some? <==> m.peerDependencies.Some?)
            && (m.peerDependencies.Some? && ReachesPeerStep(m, saveType) ==>
                  Without(r.peerDependencies.value, m.peerDependencies.value, Names(removedPackages)))
            && (!ReachesPeerStep(m, saveType) ==> r.peerDependencies == m.peerDependencies)
  {
  }

  /**
   Nothing is added, and a name that is not being removed is never removed:
   every entry of the result was in the manifest, and every entry of the
   manifest under a name not in `removedPackages` is in the result.
   */
  lemma OnlyRemovedNamesRemoved(m: Manifest, removedPackages: seq<string>, saveType: Option<DependenciesField>)
    ensures var r := Removed(m, removedPackages, saveType);
            && r.depFields.Keys == m.depFields.Keys
            && (forall g, k :: g in r.depFields && k in r.depFields[g] ==>
                  k in m.depFields[g] && r.depFields[g][k] == m.depFields[g][k])
            && (forall g, k :: g in m.depFields && k in m.depFields[g] && k !in removedPackages ==>
                  k in r.depFields[g] && r.depFields[g][k] == m.depFields[g][k])
            && (r.peerDependencies.Some? ==> forall k :: k in r.peerDependencies.value ==>
                  k in m.peerDependencies.value && r.peerDependencies.value[k] == m.peerDependencies.value[k])
            && (m.peerDependencies.Some? ==> forall k :: k in m.peerDependencies.value && k !in removedPackages ==>
                  k in r.peerDependencies.value && r.peerDependencies.value[k] == m.peerDependencies.value[k])
  {
  }

  /** Removing the same names twice gives the same manifest as removing them once. */
  lemma RemovedIdempotent(m: Manifest, removedPackages: seq<string>, saveType: Option<DependenciesField>)
    ensures Removed(Removed(m, removedPackages, saveType), removedPackages, saveType) == Removed(m, removedPackages, saveType)
  {
    var names := Names(removedPackages);
    var once := Removed(m, removedPackages, saveType);
    var twice := Removed(once, removedPackages, saveType);
    assert twice.peerDependencies == once.peerDependencies by {
      if m.peerDependencies.Some? && ReachesPeerStep(m, saveType) {
        assert once.peerDependencies.value - names == once.peerDependencies.value;
      }
    }
    match saveType
    case Some(f) =>
      if f in m.depFields {
        assert once.depFields[f] - names == once.depFields[f];
        assert once.depFields[f := once.depFields[f]] == once.depFields;
      }
    case None =>
      assert twice.depFields == once.depFields by {
        forall g | g in once.depFields ensures twice.depFields[g] == once.depFields[g] {
          assert once.depFields[g] - names == once.depFields[g];
        }
      }
  }
}
