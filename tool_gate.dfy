/** The required-tool gate of vortex.py (check_tools): the six external
    scanners are looked up on PATH one after another, in a fixed order, and
    the first one that is missing ends the program with status 1. */
module ToolGate {

  /** The names check_tools looks up, in the order it looks them up. */
  const RequiredTools: seq<string> := ["nmap", "nikto", "recon-ng", "zap-cli", "ssh-audit", "nuclei"]

  /** What check_tools does: return normally, or exit naming the tool that
      was not found. */
  datatype GateOutcome = Proceed | Exit(status: int, missing: string)

  /** check_tools, with PATH given as the set of names shutil.which resolves.
      Besides the outcome it returns the names it looked up, in order: every
      name up to and including the first missing one, and no later name. */
  method CheckTools(onPath: set<string>) returns (outcome: GateOutcome, probed: seq<string>)
    ensures outcome.Proceed? <==> forall t :: t in RequiredTools ==> t in onPath
    ensures outcome.Proceed? ==> probed == RequiredTools
    ensures outcome.Exit? ==>
      outcome.status == 1 &&
      1 <= |probed| <= |RequiredTools| &&
      probed == RequiredTools[..|probed|] &&
      outcome.missing == probed[|probed| - 1] &&
      outcome.missing !in onPath &&
      forall i :: 0 <= i < |probed| - 1 ==> probed[i] in onPath
  {
    probed := [];
    for k := 0 to |RequiredTools|
      invariant probed == RequiredTools[..k]
      invariant forall i :: 0 <= i < k ==> RequiredTools[i] in onPath
    {
      var tool := RequiredTools[k];
      probed := probed + [tool];
      if tool !in onPath {
        outcome := Exit(1, tool);
        return;
      }
    }
    outcome := Proceed;
  }
}
