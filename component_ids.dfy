/**
 * Component identifiers as the modelled code uses them: `toString`, `isEqual`,
 * `isEqualWithoutVersion`, `hasScope`, `hasVersion` and `changeVersion`.
 * An id written without a scope falls back to the workspace's default scope
 * when printed, so two ids can print the same while being different ids.
 */
module ComponentIds {
  import opened Wrappers

  /** The version name that stands for "no particular version". */
  const Latest := "latest"

  datatype ComponentId = ComponentId(
    name: string,
    explicitScope: Option<string>,
    defaultScope: string,
    version: Option<string>)
  {
    function Scope(): string {
      explicitScope.GetOr(defaultScope)
    }

    predicate HasScope() {
      explicitScope.Some?
    }

    /** A version is present when one is written and it is not `latest`. */
    predicate HasVersion() {
      version.Some? && version.value != "" && version.value != Latest
    }

    function ToStringWithoutVersion(): string {
      Scope() + "/" + name
    }

    function ToString(): string {
      ToStringWithoutVersion() + (if HasVersion() then "@" + version.value else "")
    }

    function ChangeVersion(v: Option<string>): ComponentId {
      this.(version := v)
    }

    /** Same name, same written scope, same effective scope and same version. */
    predicate IsEqual(other: ComponentId) {
      && name == other.name
      && explicitScope == other.explicitScope
      && Scope() == other.Scope()
      && version == other.version
    }

    predicate IsEqualWithoutVersion(other: ComponentId) {
      name == other.name && Scope() == other.Scope()
    }
  }

  /** Equal ids print the same; the converse fails (see StringEqualIdsMayDiffer). */
  lemma EqualIdsPrintEqual(a: ComponentId, b: ComponentId)
    requires a.IsEqual(b)
    ensures a.ToString() == b.ToString()
    ensures a.IsEqualWithoutVersion(b)
  {
  }

  /** An id without a scope and the same id with its default scope written out. */
  lemma StringEqualIdsMayDiffer()
    ensures var a := ComponentId("button", None, "ui", None);
            var b := ComponentId("button", Some("ui"), "ui", None);
            a.ToString() == b.ToString() && !a.IsEqual(b)
  {
  }
}
