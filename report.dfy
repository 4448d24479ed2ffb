/**
 * The report loop of the command: print the header, then for every
 * PodDisruptionBudget compile its selector and test it against the
 * Deployments and then the StatefulSets, printing one row per match, with a
 * per-PDB targetFound flag that makes a StatefulSet match after any earlier
 * match abort the run. Printed lines are collected in order; an abort ends
 * the run with the lines printed so far and names the abort in its outcome.
 */
module PdbReport {
  import opened Wrappers
  import opened Labels
  import opened Resolver
  import opened ResolutionProperties

  /**
   * The body of the loop for one PDB: the rows it prints, in order, and
   * whether the run goes on after it.
   */
  method ResolveTarget(pdb: Pdb, deps: seq<Workload>, stss: seq<Workload>) returns (rows: seq<Line>, status: PdbStatus)
    ensures PdbResult(rows, status) == ResolvePdb(pdb, deps, stss)
  {
    rows := [];
    var compiled := Compile(pdb.selector);
    if compiled.Failure? {
      status := Unselectable(compiled.error);
      return;
    }
    var selector := compiled.value;

    var targetFound := false;
    for j := 0 to |deps|
      invariant rows == TargetRows(pdb, DeploymentKind, Matching(selector, deps[..j]))
      invariant targetFound <==> Matching(selector, deps[..j]) != []
    {
      assert deps[..j + 1][..j] == deps[..j] && deps[..j + 1][j] == deps[j];
      if Matches(selector, deps[j].templateLabels) {
        rows := rows + [TargetRow(pdb, DeploymentKind, deps[j])];
        targetFound := true;
      }
    }
    assert deps[..|deps|] == deps;
    ghost var md := Matching(selector, deps);

    for j := 0 to |stss|
      invariant !IsAmbiguous(|md|, |Matching(selector, stss[..j])|)
      invariant rows == TargetRows(pdb, DeploymentKind, md) + TargetRows(pdb, StatefulSetKind, Matching(selector, stss[..j]))
      invariant targetFound <==> md != [] || Matching(selector, stss[..j]) != []
    {
      assert stss[..j + 1][..j] == stss[..j] && stss[..j + 1][j] == stss[j];
      if Matches(selector, stss[j].templateLabels) {
        if targetFound {
          status := Ambiguous;
          MatchingPrefix(selector, stss, j);
          MatchingPrefix(selector, stss, j + 1);
          return;
        }
        rows := rows + [TargetRow(pdb, StatefulSetKind, stss[j])];
        targetFound := true;
      }
    }
    assert stss[..|stss|] == stss;

    if !targetFound {
      rows := rows + [NotFoundRow(pdb)];
    }
    status := Resolved;
  }

  /** The whole report: the header, then every PDB in order until one aborts. */
  method Run(pdbs: seq<Pdb>, deps: seq<Workload>, stss: seq<Workload>) returns (lines: seq<Line>, outcome: Outcome)
    ensures Report(lines, outcome) == Resolution(pdbs, deps, stss)
  {
    lines := [Header];
    outcome := Completed;
    assert pdbs[..0] == [];
    for i := 0 to |pdbs|
      invariant Resolution(pdbs[..i], deps, stss) == Report(lines, Completed)
    {
      var rows, status := ResolveTarget(pdbs[i], deps, stss);
      RunStep(pdbs, deps, stss, i, lines, rows, status);
      lines := lines + rows;
      if !status.Resolved? {
        outcome := OutcomeOf(pdbs[i], status);
        return;
      }
    }
    assert pdbs[..|pdbs|] == pdbs;
  }
}
