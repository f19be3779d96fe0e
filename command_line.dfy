/**
  The one command-line switch that feeds the model: `--repo <name>`
  overrides the configured repository name when a non-empty value follows it.
*/
module CommandLine {
  import opened Wrappers

  /** `argv.indexOf(s)`: the first position of `s`, or None. */
  function IndexOf(argv: seq<string>, s: string): (r: Option<nat>)
    ensures r.None? <==> s !in argv
    ensures r.Some? ==> r.value < |argv| && argv[r.value] == s && s !in argv[..r.value]
  {
    if argv == [] then None
    else if argv[0] == s then Some(0)
    else
      match IndexOf(argv[1..], s)
      case None => None
      case Some(i) =>
        assert argv[..i + 1] == [argv[0]] + argv[1..][..i];
        Some(i + 1)
  }

  /** The repository name a run uses, given its arguments and the configured name. */
  function RepositoryOverride(argv: seq<string>, configured: Option<string>): (r: Option<string>)
    ensures r != configured ==> r.Some? && "--repo" in argv && r.value != ""
  {
    match IndexOf(argv, "--repo")
    case Some(i) => if i + 1 < |argv| && argv[i + 1] != "" then Some(argv[i + 1]) else configured
    case None => configured
  }

  /**
    The value right after the first `--repo` wins, when there is one and it
    is not empty; otherwise the configured name stays.
  */
  lemma RepositoryOverrideMeaning(argv: seq<string>, configured: Option<string>, i: nat)
    requires i < |argv| && argv[i] == "--repo" && "--repo" !in argv[..i]
    ensures i + 1 < |argv| && argv[i + 1] != "" ==> RepositoryOverride(argv, configured) == Some(argv[i + 1])
    ensures !(i + 1 < |argv| && argv[i + 1] != "") ==> RepositoryOverride(argv, configured) == configured
  {
  }

  lemma NoRepoFlag(argv: seq<string>, configured: Option<string>)
    requires "--repo" !in argv
    ensures RepositoryOverride(argv, configured) == configured
  {
  }
}
