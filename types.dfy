/**
 * The closed tables of branch categories and the version record the action
 * computes with.
 */
module Types {
  import opened Wrappers

  /** Branch prefixes that bump the minor number. */
  const MinorTypes: seq<string> := ["feature"]

  /** Branch prefixes that bump the patch number. */
  const PatchTypes: seq<string> := ["chore", "test", "docs"]

  /** Branch prefixes that bump the hotfix number. */
  const HotfixTypes: seq<string> := ["hotfix"]

  /** Every recognised branch prefix: the three tables one after the other. */
  const BranchTypes: seq<string> := MinorTypes + PatchTypes + HotfixTypes

  /**
   * A version `major.minor.patch[.hotfix]`. The hotfix number is absent (JavaScript
   * `null`) for a three-part tag; the numbers are what `parseInt` of a digit prefix
   * yields, so they are never negative.
   */
  datatype Version = Version(major: nat, minor: nat, patch: nat, hotfix: Option<nat>)

  /** The starting point when there is no release yet: 0.0.0 with no hotfix number. */
  const Initial: Version := Version(0, 0, 0, None)

  /** The recognised branch prefixes, written out. */
  lemma BranchTypesAre(t: string)
    ensures t in BranchTypes <==> t in ["feature", "chore", "test", "docs", "hotfix"]
  {
  }

  /** Every branch type falls in exactly one of the three categories. */
  lemma BranchTypesPartitioned(t: string)
    requires t in BranchTypes
    ensures t in MinorTypes || t in PatchTypes || t in HotfixTypes
    ensures !(t in MinorTypes && t in PatchTypes)
    ensures !(t in MinorTypes && t in HotfixTypes)
    ensures !(t in PatchTypes && t in HotfixTypes)
  {
  }
}
