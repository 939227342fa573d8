/** Version selection in `rollbackAppVersion`. The version listing is the
    orchestrator's answer to `ListVersions`, given here as an input; it is
    only consulted when no explicit version was passed. */
module Rollback {

  /** The outcome of `ListVersions`: most recent version first. */
  datatype VersionListing = ListFailed | Listed(versions: seq<string>)

  /** The update the command submits: application id and target version. */
  datatype RollbackUpdate = RollbackUpdate(id: string, version: string)

  /** Lines 321-330: the explicit version (second argument) when given,
      otherwise the second-most-recent version when the listing succeeded
      with more than one entry, otherwise the empty string. */
  function RollbackTarget(args: seq<string>, listing: VersionListing): (version: string)
    ensures |args| > 1 ==> version == args[1]
    ensures |args| <= 1 && listing.Listed? && |listing.versions| > 1 ==> version == listing.versions[1]
    ensures |args| <= 1 && !(listing.Listed? && |listing.versions| > 1) ==> version == ""
  {
    if |args| > 1 then args[1]
    else match listing
      case Listed(vs) => if |vs| > 1 then vs[1] else ""
      case ListFailed => ""
  }

  /** Line 331: the update built from the application id and the target. */
  function RollbackRequest(args: seq<string>, listing: VersionListing): (u: RollbackUpdate)
    requires |args| >= 1
    ensures u.id == args[0]
    ensures u.version == RollbackTarget(args, listing)
    ensures |args| > 1 ==> u.version == args[1]
    ensures |args| == 1 ==> (u.version != "" ==> listing.Listed? && |listing.versions| > 1)
  {
    RollbackUpdate(args[0], RollbackTarget(args, listing))
  }

  /** An explicit version is used verbatim whatever the history holds. */
  lemma ExplicitVersionIgnoresHistory(args: seq<string>, l1: VersionListing, l2: VersionListing)
    requires |args| > 1
    ensures RollbackTarget(args, l1) == RollbackTarget(args, l2) == args[1]
  {
  }

  /** Without an explicit version the target is never the current (first)
      version unless the history itself repeats it at index 1: a one-entry
      history gives the empty string, not that entry. */
  lemma NoRollbackToCurrent(args: seq<string>, current: string)
    requires |args| <= 1
    ensures RollbackTarget(args, Listed([current])) == ""
    ensures RollbackTarget(args, ListFailed) == ""
  {
  }

  /** Without an explicit version, a non-empty target is taken from the
      history, strictly after its most recent entry. */
  lemma TargetComesFromHistory(args: seq<string>, listing: VersionListing)
    requires |args| <= 1
    requires RollbackTarget(args, listing) != ""
    ensures listing.Listed? && |listing.versions| > 1
    ensures RollbackTarget(args, listing) in listing.versions[1..]
  {
    assert listing.versions[1..][0] == listing.versions[1];
  }

  /** History v5, v4, v3 rolls back to v4; history v5 alone gives "". */
  lemma RollbackExamples()
    ensures RollbackTarget(["app"], Listed(["v5", "v4", "v3"])) == "v4"
    ensures RollbackTarget(["app"], Listed(["v5"])) == ""
    ensures RollbackTarget(["app", "v3"], Listed(["v5", "v4", "v3"])) == "v3"
  {
  }
}
