/**
 The shared vocabulary of the lockfile reader and the manifest editor: the
 dependency fields a manifest or an importer groups its dependencies under,
 and the maps from package name to version text those fields hold.
 */
module Types {

  datatype Option<T> = None | Some(value: T)

  /** A map from package name to a declared range or a resolved version. */
  type Deps = map<string, string>

  /**
   The dependency fields of a manifest, as named by `DependenciesField`:
   `optionalDependencies`, `dependencies` and `devDependencies`.
   `peerDependencies` is deliberately not one of them.
   */
  datatype DependenciesField = OptionalDependencies | Dependencies | DevDependencies

  /** Every dependency field, each once, in the order the reader and the editor visit them. */
  const DEPENDENCIES_FIELDS: seq<DependenciesField> := [OptionalDependencies, Dependencies, DevDependencies]

  /** The position of a field in DEPENDENCIES_FIELDS, which therefore lists every field. */
  function FieldIndex(f: DependenciesField): (i: nat)
    ensures i < |DEPENDENCIES_FIELDS| && DEPENDENCIES_FIELDS[i] == f
  {
    match f
    case OptionalDependencies => 0
    case Dependencies => 1
    case DevDependencies => 2
  }

  /** The set of names in a list of names. */
  function Names(s: seq<string>): set<string>
  {
    set x | x in s
  }

  /** Adding one more name to a prefix adds exactly that name to its set. */
  lemma NamesSnoc(s: seq<string>, i: nat)
    requires i < |s|
    ensures Names(s[..i + 1]) == Names(s[..i]) + {s[i]}
  {
  }
}
