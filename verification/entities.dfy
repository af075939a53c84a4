/**
 * The records the extractor produces and the graph stores: property values, property
 * maps, entities with their relations, and the fixed labels, relationship types, property
 * keys and status names the engine writes (github_neo_4_j_sync.py:220-235, 281-298,
 * 312-330, 489-665). Labels, relationship types and keys form closed sets in the source,
 * so they are enumerations here.
 */
module Entities {
  import opened Wrappers

  /** A property value: the engine only ever stores strings and integers. */
  datatype Value = Str(s: string) | Int(i: int)

  /** The property keys the engine reads or writes. */
  datatype Key =
    | Path | Name | Status | OldStatus | Version | CommitSha | SnapshotSha | DeletedInCommit
    | LastUpdated | Timestamp | Code | LanguageName | FileSha | Size | Lines | LineNumber

  type Props = map<Key, Value>

  /** Node labels. */
  datatype Label = Module | Class | Method | Subroutine | GraphSnapshot

  /** Relationship types. */
  datatype RelType = HasClass | HasSubroutine | DefinesMethod

  /** A relation request attached to an entity: `{"type", "to_type", "to_name"}`. The extractor
      always fills in the type and the target label; the target name may be empty. */
  datatype Relation = Relation(relType: RelType, toLabel: Label, toName: string)

  /** An extracted entity: `{"type": label, "name", "attributes", "relations"}`. */
  datatype Entity = Entity(kind: Label, name: string, attrs: Props, relations: seq<Relation>)

  /** Every relation of the entities targets a Module or a label in `ok`. */
  predicate TargetsWithin(ents: seq<Entity>, ok: set<Label>) {
    forall e, x :: e in ents && x in e.relations ==> x.toLabel == Module || x.toLabel in ok
  }

  // Status values.
  const ACTIVE := "active"
  const DELETED := "deleted"
  const ROLLED_BACK := "rolled_back"
  const UNKNOWN := "unknown"

  /** `props.get(key)` when it holds a string. */
  function StrProp(props: Props, key: Key): Option<string> {
    if key in props && props[key].Str? then Some(props[key].s) else None
  }

  /** The `path` attribute as the engine reads it (`attributes.get("path")`), with a missing
      or non-string path read as the empty, falsy, string. */
  function PathOf(props: Props): string {
    StrProp(props, Path).GetOr("")
  }
}
