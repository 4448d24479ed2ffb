/**
 * The records the report is built from, the rows it prints, and the
 * declarative meaning of one resolution pass over all PodDisruptionBudgets.
 */
module Resolver {
  import opened Wrappers
  import opened Labels

  /** A Deployment or StatefulSet: its name, declared replicas and pod-template labels. */
  datatype Workload = Workload(name: string, replicas: nat, templateLabels: LabelSet)

  /**
   * A PodDisruptionBudget. The budget values are carried as their rendered
   * text; None stands for an unset field.
   */
  datatype Pdb = Pdb(
    name: string,
    minAvailable: Option<string>,
    maxUnavailable: Option<string>,
    selector: LabelSelector)

  datatype TargetKind = DeploymentKind | StatefulSetKind | NotFoundKind

  /** One printed line: the CSV header, or one report row. */
  datatype Line =
    | Header
    | Row(
        pdbName: string,
        minAvailable: Option<string>,
        maxUnavailable: Option<string>,
        kind: TargetKind,
        targetName: string,
        replicas: int)

  /** How a run ends: normally, or by one of the two aborts. */
  datatype Outcome =
    | Completed
    | AmbiguousTarget(pdbName: string)
    | SelectorFailure(pdbName: string, error: CompileError)

  const TARGET_NOT_FOUND := "TARGET-NOT-FOUND"

  /** The text printed in the target-type column. */
  function KindName(k: TargetKind): string
  {
    match k
    case DeploymentKind => "deployment"
    case StatefulSetKind => "statefulset"
    case NotFoundKind => TARGET_NOT_FOUND
  }

  /** The row printed for a workload that a PDB's selector matches. */
  function TargetRow(p: Pdb, kind: TargetKind, w: Workload): Line
  {
    Row(p.name, p.minAvailable, p.maxUnavailable, kind, w.name, w.replicas)
  }

  /** The row printed for a PDB whose selector matched nothing. */
  function NotFoundRow(p: Pdb): Line
  {
    Row(p.name, p.minAvailable, p.maxUnavailable, NotFoundKind, TARGET_NOT_FOUND, -1)
  }

  /** A row of p's own */
  ghost predicate RowOf(p: Pdb, l: Line)
  {
    l.Row? && l.pdbName == p.name && l.minAvailable == p.minAvailable && l.maxUnavailable == p.maxUnavailable
  }

  function TargetRows(p: Pdb, kind: TargetKind, ws: seq<Workload>): (r: seq<Line>)
    ensures |r| == |ws|
    ensures forall k :: 0 <= k < |ws| ==> r[k] == TargetRow(p, kind, ws[k])
  {
    seq(|ws|, k requires 0 <= k < |ws| => TargetRow(p, kind, ws[k]))
  }

  /** The selector matches the workload's pod-template labels. */
  predicate Selected(s: Selector, w: Workload)
  {
    Matches(s, w.templateLabels)
  }

  /** The workloads the selector matches, in input order. */
  function Matching(s: Selector, ws: seq<Workload>): seq<Workload>
    decreases |ws|
  {
    if ws == [] then []
    else
      var init := Matching(s, ws[..|ws| - 1]);
      if Selected(s, ws[|ws| - 1]) then init + [ws[|ws| - 1]] else init
  }

  /**
   * The resolution rule of the loop: a StatefulSet match after any earlier
   * match aborts; several Deployment matches do not.
   */
  predicate IsAmbiguous(deploymentMatches: nat, statefulSetMatches: nat)
  {
    statefulSetMatches >= 2 || (statefulSetMatches >= 1 && deploymentMatches >= 1)
  }

  datatype PdbStatus = Resolved | Ambiguous | Unselectable(error: CompileError)

  /** The rows one PDB prints and whether the run may go on after it. */
  datatype PdbResult = PdbResult(lines: seq<Line>, status: PdbStatus)

  /**
   * One PDB: its selector fails to compile (nothing printed), it is ambiguous
   * (the Deployment rows and, when there were none, the first StatefulSet row
   * have been printed), it matched nothing (one not-found row), or its rows
   * are the matching Deployments then the matching StatefulSets.
   */
  function ResolvePdb(p: Pdb, deps: seq<Workload>, stss: seq<Workload>): (r: PdbResult)
    ensures forall i :: 0 <= i < |r.lines| ==> RowOf(p, r.lines[i])
  {
    match Compile(p.selector)
    case Failure(err) => PdbResult([], Unselectable(err))
    case Success(s) =>
      var md := Matching(s, deps);
      var ms := Matching(s, stss);
      if IsAmbiguous(|md|, |ms|) then
        PdbResult(TargetRows(p, DeploymentKind, md) + TargetRows(p, StatefulSetKind, ms[..if md == [] then 1 else 0]),
                  Ambiguous)
      else if md == [] && ms == [] then
        PdbResult([NotFoundRow(p)], Resolved)
      else
        PdbResult(TargetRows(p, DeploymentKind, md) + TargetRows(p, StatefulSetKind, ms), Resolved)
  }

  /** The outcome a PDB's status gives the run. */
  function OutcomeOf(p: Pdb, st: PdbStatus): (o: Outcome)
    ensures o.Completed? <==> st.Resolved?
  {
    match st
    case Resolved => Completed
    case Ambiguous => AmbiguousTarget(p.name)
    case Unselectable(err) => SelectorFailure(p.name, err)
  }

  /** Printed lines and the outcome of a run. */
  datatype Report = Report(lines: seq<Line>, outcome: Outcome)

  /**
   * Strings the PDBs' results together in order, stopping after the first
   * PDB that does not resolve.
   */
  function Combine(pdbs: seq<Pdb>, results: seq<PdbResult>): Report
    requires |results| == |pdbs|
    decreases |pdbs|
  {
    if pdbs == [] then Report([], Completed)
    else
      var n := |pdbs| - 1;
      var before := Combine(pdbs[..n], results[..n]);
      if !before.outcome.Completed? then before
      else Report(before.lines + results[n].lines, OutcomeOf(pdbs[n], results[n].status))
  }

  /** Every PDB resolved on its own against the same candidates. */
  function Results(pdbs: seq<Pdb>, deps: seq<Workload>, stss: seq<Workload>): (r: seq<PdbResult>)
    ensures |r| == |pdbs|
  {
    seq(|pdbs|, k requires 0 <= k < |pdbs| => ResolvePdb(pdbs[k], deps, stss))
  }

  /** The printed rows (without the header) and the outcome of a run. */
  function ResolveAll(pdbs: seq<Pdb>, deps: seq<Workload>, stss: seq<Workload>): Report
  {
    Combine(pdbs, Results(pdbs, deps, stss))
  }

  /** A whole run: the header, then every PDB's rows. */
  function Resolution(pdbs: seq<Pdb>, deps: seq<Workload>, stss: seq<Workload>): Report
  {
    var body := ResolveAll(pdbs, deps, stss);
    Report([Header] + body.lines, body.outcome)
  }
}
