/**
 * What a resolution pass promises: about the selection of matching
 * workloads, about one PDB's rows and status, and about the whole run.
 */
module ResolutionProperties {
  import opened Wrappers
  import opened Labels
  import opened Resolver

  // ---------------------------------------------------------------------------
  // Matching workloads
  // ---------------------------------------------------------------------------

  /**
   * The positions of the matching workloads, strictly increasing, one per
   * element of Matching.
   */
  ghost function MatchIndices(s: Selector, ws: seq<Workload>): (r: seq<nat>)
    ensures |r| == |Matching(s, ws)|
    ensures forall k :: 0 <= k < |r| ==> r[k] < |ws| && Matching(s, ws)[k] == ws[r[k]]
    ensures forall k, l :: 0 <= k < l < |r| ==> r[k] < r[l]
    decreases |ws|
  {
    if ws == [] then []
    else
      var n := |ws| - 1;
      var init := MatchIndices(s, ws[..n]);
      assert forall i :: 0 <= i < n ==> ws[..n][i] == ws[i];
      if Selected(s, ws[n]) then
        var r := init + [n];
        assert forall k :: 0 <= k < |init| ==> r[k] == init[k];
        assert Matching(s, ws) == Matching(s, ws[..n]) + [ws[n]];
        r
      else
        assert Matching(s, ws) == Matching(s, ws[..n]);
        init
  }

  /** Every position MatchIndices lists holds a workload the selector matches. */
  lemma {:induction false} MatchIndicesSelected(s: Selector, ws: seq<Workload>)
    ensures forall k :: 0 <= k < |MatchIndices(s, ws)| ==> Selected(s, ws[MatchIndices(s, ws)[k]])
    decreases |ws|
  {
    if ws != [] {
      var n := |ws| - 1;
      var pre := ws[..n];
      MatchIndicesSelected(s, pre);
      var init := MatchIndices(s, pre);
      var r := MatchIndices(s, ws);
      assert r == if Selected(s, ws[n]) then init + [n] else init;
      forall k | 0 <= k < |r|
        ensures Selected(s, ws[r[k]])
      {
        if k < |init| {
          assert r[k] == init[k] && pre[init[k]] == ws[init[k]];
        }
      }
    }
  }

  /** Every position whose workload the selector matches is listed by MatchIndices. */
  lemma {:induction false} MatchIndicesComplete(s: Selector, ws: seq<Workload>)
    ensures forall i :: 0 <= i < |ws| && Selected(s, ws[i]) ==> i in MatchIndices(s, ws)
    decreases |ws|
  {
    if ws != [] {
      var n := |ws| - 1;
      var pre := ws[..n];
      MatchIndicesComplete(s, pre);
      var init := MatchIndices(s, pre);
      var r := MatchIndices(s, ws);
      assert r == if Selected(s, ws[n]) then init + [n] else init;
      forall i | 0 <= i < |ws| && Selected(s, ws[i])
        ensures i in r
      {
        if i < n {
          assert pre[i] == ws[i];
          assert i in init;
        }
      }
    }
  }

  /** The positions MatchIndices lists are exactly those whose labels the selector matches. */
  lemma MatchIndicesExact(s: Selector, ws: seq<Workload>)
    ensures forall k :: 0 <= k < |MatchIndices(s, ws)| ==> Selected(s, ws[MatchIndices(s, ws)[k]])
    ensures forall i :: 0 <= i < |ws| && Selected(s, ws[i]) ==> i in MatchIndices(s, ws)
  {
    MatchIndicesSelected(s, ws);
    MatchIndicesComplete(s, ws);
  }

  /** Strictly increasing positions spread at least as far as there are of them. */
  lemma {:induction false} SpanBound(idx: seq<nat>)
    requires |idx| > 0
    requires forall k, l :: 0 <= k < l < |idx| ==> idx[k] < idx[l]
    ensures idx[|idx| - 1] - idx[0] >= |idx| - 1
    decreases |idx|
  {
    if |idx| > 1 {
      var init := idx[..|idx| - 1];
      assert forall k :: 0 <= k < |init| ==> init[k] == idx[k];
      SpanBound(init);
      assert idx[|idx| - 2] < idx[|idx| - 1];
    }
  }

  /** The first of strictly increasing positions is the least of them. */
  lemma FirstIsLeast(idx: seq<nat>)
    requires |idx| > 0
    requires forall k, l :: 0 <= k < l < |idx| ==> idx[k] < idx[l]
    ensures forall x :: x in idx ==> idx[0] <= x
  {
    forall x | x in idx
      ensures idx[0] <= x
    {
      var k :| 0 <= k < |idx| && idx[k] == x;
      if k > 0 {
        assert idx[0] < idx[k];
      }
    }
  }

  ghost predicate AnyMatch(s: Selector, ws: seq<Workload>)
  {
    exists i :: 0 <= i < |ws| && Selected(s, ws[i])
  }

  ghost predicate TwoMatch(s: Selector, ws: seq<Workload>)
  {
    exists i, j :: 0 <= i < j < |ws| && Selected(s, ws[i]) && Selected(s, ws[j])
  }

  lemma AnyMatchIff(s: Selector, ws: seq<Workload>)
    ensures AnyMatch(s, ws) <==> |Matching(s, ws)| >= 1
  {
    MatchIndicesExact(s, ws);
    var idx := MatchIndices(s, ws);
    if AnyMatch(s, ws) {
      var i :| 0 <= i < |ws| && Selected(s, ws[i]);
      assert i in idx;
    }
    if |Matching(s, ws)| >= 1 {
      assert idx[0] in idx;
    }
  }

  lemma TwoMatchIff(s: Selector, ws: seq<Workload>)
    ensures TwoMatch(s, ws) <==> |Matching(s, ws)| >= 2
  {
    MatchIndicesExact(s, ws);
    var idx := MatchIndices(s, ws);
    if TwoMatch(s, ws) {
      var i, j :| 0 <= i < j < |ws| && Selected(s, ws[i]) && Selected(s, ws[j]);
      assert i in idx && j in idx;
      var k :| 0 <= k < |idx| && idx[k] == i;
      var l :| 0 <= l < |idx| && idx[l] == j;
      assert k != l;
    }
    if |Matching(s, ws)| >= 2 {
      assert idx[0] in idx && idx[1] in idx;
    }
  }

  /** What an earlier part of the input matches is a prefix of what all of it matches. */
  lemma {:induction false} MatchingPrefix(s: Selector, ws: seq<Workload>, j: nat)
    requires j <= |ws|
    ensures Matching(s, ws[..j]) <= Matching(s, ws)
    decreases |ws| - j
  {
    if j < |ws| {
      var init := ws[..|ws| - 1];
      assert init[..j] == ws[..j];
      MatchingPrefix(s, init, j);
    } else {
      assert ws[..j] == ws;
    }
  }

  // ---------------------------------------------------------------------------
  // One PDB
  // ---------------------------------------------------------------------------

  /** Either two StatefulSets match, or a Deployment and a StatefulSet do. */
  ghost predicate Ambiguity(s: Selector, deps: seq<Workload>, stss: seq<Workload>)
  {
    TwoMatch(s, stss) || (AnyMatch(s, deps) && AnyMatch(s, stss))
  }

  /** The run aborts on a PDB exactly when its matches are ambiguous. */
  lemma AmbiguityRule(p: Pdb, deps: seq<Workload>, stss: seq<Workload>, s: Selector)
    requires Compile(p.selector) == Success(s)
    ensures ResolvePdb(p, deps, stss).status == Ambiguous <==> Ambiguity(s, deps, stss)
    ensures !Ambiguity(s, deps, stss) ==> ResolvePdb(p, deps, stss).status == Resolved
  {
    AnyMatchIff(s, deps);
    AnyMatchIff(s, stss);
    TwoMatchIff(s, stss);
  }

  /**
   * Several matching Deployments do not abort when no StatefulSet matches:
   * one row per matching Deployment, in input order.
   */
  lemma DeploymentRows(p: Pdb, deps: seq<Workload>, stss: seq<Workload>, s: Selector)
    requires Compile(p.selector) == Success(s)
    requires AnyMatch(s, deps) && !AnyMatch(s, stss)
    ensures ResolvePdb(p, deps, stss).status == Resolved
    ensures |ResolvePdb(p, deps, stss).lines| == |MatchIndices(s, deps)|
    ensures forall k :: 0 <= k < |MatchIndices(s, deps)| ==>
      ResolvePdb(p, deps, stss).lines[k] == TargetRow(p, DeploymentKind, deps[MatchIndices(s, deps)[k]])
  {
    AnyMatchIff(s, deps);
    AnyMatchIff(s, stss);
  }

  /** A single matching workload is all that Matching returns. */
  lemma LoneMatch(s: Selector, ws: seq<Workload>, i: nat)
    requires i < |ws| && Selected(s, ws[i])
    requires forall j :: 0 <= j < |ws| && j != i ==> !Selected(s, ws[j])
    ensures Matching(s, ws) == [ws[i]]
  {
    MatchIndicesExact(s, ws);
    var idx := MatchIndices(s, ws);
    assert i in idx;
    forall k | 0 <= k < |idx|
      ensures idx[k] == i
    {
      assert Selected(s, ws[idx[k]]);
    }
    SpanBound(idx);
    assert |idx| == 1;
  }

  /** Exactly one matching StatefulSet and no matching Deployment: its row only. */
  lemma LoneStatefulSet(p: Pdb, deps: seq<Workload>, stss: seq<Workload>, s: Selector, i: nat)
    requires Compile(p.selector) == Success(s)
    requires !AnyMatch(s, deps)
    requires i < |stss| && Selected(s, stss[i])
    requires forall j :: 0 <= j < |stss| && j != i ==> !Selected(s, stss[j])
    ensures ResolvePdb(p, deps, stss) == PdbResult([TargetRow(p, StatefulSetKind, stss[i])], Resolved)
  {
    AnyMatchIff(s, deps);
    LoneMatch(s, stss, i);
  }

  /**
   * On an ambiguous PDB the rows already printed stay: every matching
   * Deployment's, or else the first matching StatefulSet's; the clashing
   * StatefulSet gets no row.
   */
  lemma AmbiguousRows(p: Pdb, deps: seq<Workload>, stss: seq<Workload>, s: Selector)
    requires Compile(p.selector) == Success(s)
    requires Ambiguity(s, deps, stss)
    ensures AnyMatch(s, deps) ==>
      ResolvePdb(p, deps, stss).lines == TargetRows(p, DeploymentKind, Matching(s, deps))
    ensures !AnyMatch(s, deps) ==>
      |MatchIndices(s, stss)| >= 2 &&
      (forall j :: 0 <= j < MatchIndices(s, stss)[0] ==> !Selected(s, stss[j])) &&
      ResolvePdb(p, deps, stss).lines == [TargetRow(p, StatefulSetKind, stss[MatchIndices(s, stss)[0]])]
  {
    AnyMatchIff(s, deps);
    AnyMatchIff(s, stss);
    TwoMatchIff(s, stss);
    if !AnyMatch(s, deps) {
      MatchIndicesExact(s, stss);
      FirstIsLeast(MatchIndices(s, stss));
    }
  }

  /**
   * A PDB whose selector compiles gets the not-found row exactly when no
   * candidate matches, and then that row alone.
   */
  lemma NotFoundRule(p: Pdb, deps: seq<Workload>, stss: seq<Workload>, s: Selector)
    requires Compile(p.selector) == Success(s)
    ensures NotFoundRow(p) in ResolvePdb(p, deps, stss).lines <==> !AnyMatch(s, deps) && !AnyMatch(s, stss)
    ensures !AnyMatch(s, deps) && !AnyMatch(s, stss) ==>
      ResolvePdb(p, deps, stss) == PdbResult([NotFoundRow(p)], Resolved)
  {
    AnyMatchIff(s, deps);
    AnyMatchIff(s, stss);
    var r := ResolvePdb(p, deps, stss);
    if AnyMatch(s, deps) || AnyMatch(s, stss) {
      assert forall k :: 0 <= k < |r.lines| ==> r.lines[k].kind != NotFoundKind;
    }
  }

  /** Within a PDB, no Deployment row follows a StatefulSet row. */
  lemma DeploymentRowsFirst(p: Pdb, deps: seq<Workload>, stss: seq<Workload>)
    ensures var ls := ResolvePdb(p, deps, stss).lines;
      forall i, j :: 0 <= i < j < |ls| ==> !(ls[i].kind == StatefulSetKind && ls[j].kind == DeploymentKind)
  {
  }

  /** A selector that does not compile stops the PDB before any candidate is looked at. */
  lemma SelectorFailureFirst(p: Pdb, deps: seq<Workload>, stss: seq<Workload>, err: CompileError)
    requires Compile(p.selector) == Failure(err)
    ensures ResolvePdb(p, deps, stss) == PdbResult([], Unselectable(err))
  {
  }

  // ---------------------------------------------------------------------------
  // The whole run
  // ---------------------------------------------------------------------------

  /** Running two lists of PDBs one after the other. */
  function Then(first: Report, second: Report): Report
  {
    if first.outcome.Completed? then Report(first.lines + second.lines, second.outcome) else first
  }

  /** Combining results whose lines are all rows prints only rows. */
  lemma {:induction false} CombineRows(pdbs: seq<Pdb>, results: seq<PdbResult>)
    requires |results| == |pdbs|
    requires forall k, i :: 0 <= k < |results| && 0 <= i < |results[k].lines| ==> results[k].lines[i].Row?
    ensures forall i :: 0 <= i < |Combine(pdbs, results).lines| ==> Combine(pdbs, results).lines[i].Row?
    decreases |pdbs|
  {
    if pdbs != [] {
      var n := |pdbs| - 1;
      assert forall k :: 0 <= k < n ==> results[..n][k] == results[k];
      CombineRows(pdbs[..n], results[..n]);
    }
  }

  /** The header is the first line and the only one. */
  lemma HeaderOnce(pdbs: seq<Pdb>, deps: seq<Workload>, stss: seq<Workload>)
    ensures var ls := Resolution(pdbs, deps, stss).lines;
      |ls| >= 1 && ls[0] == Header && forall i :: 1 <= i < |ls| ==> ls[i] != Header
  {
    var results := Results(pdbs, deps, stss);
    forall k, i | 0 <= k < |results| && 0 <= i < |results[k].lines|
      ensures results[k].lines[i].Row?
    {
      assert results[k] == ResolvePdb(pdbs[k], deps, stss);
    }
    CombineRows(pdbs, results);
  }

  /**
   * Combining two lists of results is combining the first and, when it
   * completed, then the second on its own.
   */
  lemma {:induction false} CombineAppend(a: seq<Pdb>, ra: seq<PdbResult>, b: seq<Pdb>, rb: seq<PdbResult>)
    requires |ra| == |a| && |rb| == |b|
    ensures Combine(a + b, ra + rb) == Then(Combine(a, ra), Combine(b, rb))
    decreases |b|
  {
    if b == [] {
      assert a + b == a && ra + rb == ra;
    } else {
      var n := |b| - 1;
      assert (a + b)[..|a| + n] == a + b[..n];
      assert (ra + rb)[..|a| + n] == ra + rb[..n];
      assert (a + b)[|a| + n] == b[n];
      assert (ra + rb)[|a| + n] == rb[n];
      CombineAppend(a, ra, b[..n], rb[..n]);
      var first, middle := Combine(a, ra), Combine(b[..n], rb[..n]);
      if first.outcome.Completed? && middle.outcome.Completed? {
        assert first.lines + middle.lines + rb[n].lines == first.lines + (middle.lines + rb[n].lines);
      }
    }
  }

  /** Resolving each PDB on its own commutes with concatenating the PDBs. */
  lemma ResultsAppend(a: seq<Pdb>, b: seq<Pdb>, deps: seq<Workload>, stss: seq<Workload>)
    ensures Results(a + b, deps, stss) == Results(a, deps, stss) + Results(b, deps, stss)
  {
    var all, ra, rb := Results(a + b, deps, stss), Results(a, deps, stss), Results(b, deps, stss);
    forall k | 0 <= k < |all|
      ensures all[k] == (ra + rb)[k]
    {
      if k < |a| {
        assert (a + b)[k] == a[k];
      } else {
        assert (a + b)[k] == b[k - |a|];
      }
    }
  }

  /**
   * PDBs are resolved independently: the run over a + b is the run over a,
   * followed, when it completed, by the run over b on its own.
   */
  lemma ResolveAllAppend(a: seq<Pdb>, b: seq<Pdb>, deps: seq<Workload>, stss: seq<Workload>)
    ensures ResolveAll(a + b, deps, stss) == Then(ResolveAll(a, deps, stss), ResolveAll(b, deps, stss))
  {
    ResultsAppend(a, b, deps, stss);
    CombineAppend(a, Results(a, deps, stss), b, Results(b, deps, stss));
  }

  /** A run over one PDB is that PDB's rows and status. */
  lemma ResolveAllSingle(p: Pdb, deps: seq<Workload>, stss: seq<Workload>)
    ensures ResolveAll([p], deps, stss) ==
      Report(ResolvePdb(p, deps, stss).lines, OutcomeOf(p, ResolvePdb(p, deps, stss).status))
  {
    var results := Results([p], deps, stss);
    assert [p][..0] == [] && results[..0] == [];
    assert Combine([p][..0], results[..0]) == Report([], Completed);
    assert results[0] == ResolvePdb(p, deps, stss);
    assert [] + results[0].lines == results[0].lines;
  }

  /** Once a prefix of the PDBs aborts, the later PDBs change nothing. */
  lemma AbortIsFinal(pdbs: seq<Pdb>, deps: seq<Workload>, stss: seq<Workload>, k: nat)
    requires k <= |pdbs|
    requires !ResolveAll(pdbs[..k], deps, stss).outcome.Completed?
    ensures ResolveAll(pdbs, deps, stss) == ResolveAll(pdbs[..k], deps, stss)
  {
    ResolveAllAppend(pdbs[..k], pdbs[k..], deps, stss);
    assert pdbs[..k] + pdbs[k..] == pdbs;
  }

  /**
   * Extending a completed run by one PDB appends that PDB's rows; if that PDB
   * does not resolve, the run ends there with its outcome.
   */
  lemma ResolveAllStep(pdbs: seq<Pdb>, deps: seq<Workload>, stss: seq<Workload>, i: nat,
                       rows: seq<Line>, status: PdbStatus)
    requires i < |pdbs|
    requires ResolveAll(pdbs[..i], deps, stss).outcome.Completed?
    requires PdbResult(rows, status) == ResolvePdb(pdbs[i], deps, stss)
    ensures status.Resolved? ==>
      ResolveAll(pdbs[..i + 1], deps, stss) == Report(ResolveAll(pdbs[..i], deps, stss).lines + rows, Completed)
    ensures !status.Resolved? ==>
      ResolveAll(pdbs, deps, stss) ==
        Report(ResolveAll(pdbs[..i], deps, stss).lines + rows, OutcomeOf(pdbs[i], status))
  {
    assert pdbs[..i] + [pdbs[i]] == pdbs[..i + 1];
    ResolveAllAppend(pdbs[..i], [pdbs[i]], deps, stss);
    ResolveAllSingle(pdbs[i], deps, stss);
    if !status.Resolved? {
      AbortIsFinal(pdbs, deps, stss, i + 1);
    }
  }

  /**
   * One more iteration of the report loop: from the lines printed for the
   * first i PDBs, printing the rows of PDB i gives the lines for the first
   * i + 1 PDBs, or, when PDB i aborts, the lines of the whole run.
   */
  lemma RunStep(pdbs: seq<Pdb>, deps: seq<Workload>, stss: seq<Workload>, i: nat,
                lines: seq<Line>, rows: seq<Line>, status: PdbStatus)
    requires i < |pdbs|
    requires Resolution(pdbs[..i], deps, stss) == Report(lines, Completed)
    requires PdbResult(rows, status) == ResolvePdb(pdbs[i], deps, stss)
    ensures status.Resolved? ==> Resolution(pdbs[..i + 1], deps, stss) == Report(lines + rows, Completed)
    ensures !status.Resolved? ==>
      Resolution(pdbs, deps, stss) == Report(lines + rows, OutcomeOf(pdbs[i], status))
  {
    var before := ResolveAll(pdbs[..i], deps, stss);
    assert lines == [Header] + before.lines;
    ResolveAllStep(pdbs, deps, stss, i, rows, status);
    assert [Header] + (before.lines + rows) == lines + rows;
  }

  /** Combining completes exactly when every result resolved. */
  lemma {:induction false} CombineCompletedIff(pdbs: seq<Pdb>, results: seq<PdbResult>)
    requires |results| == |pdbs|
    ensures Combine(pdbs, results).outcome.Completed? <==>
      forall k :: 0 <= k < |results| ==> results[k].status.Resolved?
    decreases |pdbs|
  {
    if pdbs != [] {
      var n := |pdbs| - 1;
      assert forall k :: 0 <= k < n ==> results[..n][k] == results[k];
      CombineCompletedIff(pdbs[..n], results[..n]);
    }
  }

  /** The run completes exactly when every PDB resolves. */
  lemma CompletedIff(pdbs: seq<Pdb>, deps: seq<Workload>, stss: seq<Workload>)
    ensures ResolveAll(pdbs, deps, stss).outcome.Completed? <==>
      forall k :: 0 <= k < |pdbs| ==> ResolvePdb(pdbs[k], deps, stss).status.Resolved?
  {
    var results := Results(pdbs, deps, stss);
    CombineCompletedIff(pdbs, results);
    assert forall k :: 0 <= k < |pdbs| ==> results[k] == ResolvePdb(pdbs[k], deps, stss);
  }

  /**
   * The first PDB that does not resolve ends the run and names itself; the
   * rows of all earlier PDBs and its own partial rows stay printed.
   */
  lemma FirstFailure(pdbs: seq<Pdb>, deps: seq<Workload>, stss: seq<Workload>, k: nat)
    requires k < |pdbs|
    requires forall j :: 0 <= j < k ==> ResolvePdb(pdbs[j], deps, stss).status.Resolved?
    requires !ResolvePdb(pdbs[k], deps, stss).status.Resolved?
    ensures ResolveAll(pdbs, deps, stss) ==
      Report(ResolveAll(pdbs[..k], deps, stss).lines + ResolvePdb(pdbs[k], deps, stss).lines,
             OutcomeOf(pdbs[k], ResolvePdb(pdbs[k], deps, stss).status))
    ensures ResolveAll(pdbs, deps, stss).outcome.pdbName == pdbs[k].name
  {
    var pre := pdbs[..k];
    assert forall j :: 0 <= j < k ==> pre[j] == pdbs[j];
    CompletedIff(pre, deps, stss);
    assert pre + [pdbs[k]] == pdbs[..k + 1];
    ResolveAllAppend(pre, [pdbs[k]], deps, stss);
    ResolveAllSingle(pdbs[k], deps, stss);
    AbortIsFinal(pdbs, deps, stss, k + 1);
  }

  /** A selector compilation failure aborts the run, naming the PDB, after the earlier PDBs' rows. */
  lemma SelectorFailureAborts(pdbs: seq<Pdb>, deps: seq<Workload>, stss: seq<Workload>, k: nat, err: CompileError)
    requires k < |pdbs|
    requires forall j :: 0 <= j < k ==> ResolvePdb(pdbs[j], deps, stss).status.Resolved?
    requires Compile(pdbs[k].selector) == Failure(err)
    ensures ResolveAll(pdbs, deps, stss) ==
      Report(ResolveAll(pdbs[..k], deps, stss).lines, SelectorFailure(pdbs[k].name, err))
  {
    FirstFailure(pdbs, deps, stss, k);
    assert ResolveAll(pdbs[..k], deps, stss).lines + [] == ResolveAll(pdbs[..k], deps, stss).lines;
  }

  /** An ambiguous PDB aborts the run, naming the PDB; no later PDB is processed. */
  lemma AmbiguityAborts(pdbs: seq<Pdb>, deps: seq<Workload>, stss: seq<Workload>, k: nat, s: Selector)
    requires k < |pdbs|
    requires forall j :: 0 <= j < k ==> ResolvePdb(pdbs[j], deps, stss).status.Resolved?
    requires Compile(pdbs[k].selector) == Success(s)
    requires Ambiguity(s, deps, stss)
    ensures ResolveAll(pdbs, deps, stss) ==
      Report(ResolveAll(pdbs[..k], deps, stss).lines + ResolvePdb(pdbs[k], deps, stss).lines,
             AmbiguousTarget(pdbs[k].name))
  {
    AmbiguityRule(pdbs[k], deps, stss, s);
    FirstFailure(pdbs, deps, stss, k);
  }

  /** A completed run splits at any point into two completed runs. */
  lemma CompletedSplit(pdbs: seq<Pdb>, deps: seq<Workload>, stss: seq<Workload>, k: nat)
    requires k <= |pdbs|
    requires ResolveAll(pdbs, deps, stss).outcome.Completed?
    ensures ResolveAll(pdbs[..k], deps, stss).outcome.Completed?
    ensures ResolveAll(pdbs[k..], deps, stss).outcome.Completed?
    ensures ResolveAll(pdbs, deps, stss).lines ==
      ResolveAll(pdbs[..k], deps, stss).lines + ResolveAll(pdbs[k..], deps, stss).lines
  {
    assert pdbs[..k] + pdbs[k..] == pdbs;
    ResolveAllAppend(pdbs[..k], pdbs[k..], deps, stss);
  }

  /**
   * In a completed run, PDB k's rows come after those of the PDBs before it
   * and before those of the PDBs after it.
   */
  lemma RowsInPdbOrder(pdbs: seq<Pdb>, deps: seq<Workload>, stss: seq<Workload>, k: nat)
    requires k < |pdbs|
    requires ResolveAll(pdbs, deps, stss).outcome.Completed?
    ensures ResolveAll(pdbs, deps, stss).lines ==
      ResolveAll(pdbs[..k], deps, stss).lines + ResolvePdb(pdbs[k], deps, stss).lines +
      ResolveAll(pdbs[k + 1..], deps, stss).lines
  {
    CompletedSplit(pdbs, deps, stss, k);
    var rest := pdbs[k..];
    CompletedSplit(rest, deps, stss, 1);
    assert rest[..1] == [pdbs[k]];
    assert rest[1..] == pdbs[k + 1..];
    ResolveAllSingle(pdbs[k], deps, stss);
  }

  // ---------------------------------------------------------------------------
  // Selector semantics
  // ---------------------------------------------------------------------------

  /** A selector with no constraints at all matches every label set. */
  lemma EmptySelectorMatchesAll(labels: LabelSet)
    ensures Compile(LabelSelector(map[], [])).Success?
    ensures Matches(Compile(LabelSelector(map[], [])).value, labels)
  {
  }

  /** The equality form: every key present with exactly the required value. */
  lemma EqualityForm(m: map<string, string>, labels: LabelSet)
    ensures Compile(LabelSelector(m, [])).Success?
    ensures Matches(Compile(LabelSelector(m, [])).value, labels) <==>
      forall k :: k in m ==> k in labels && labels[k] == m[k]
  {
  }

  /**
   * On a present key compiled In and NotIn requirements over the same values
   * disagree; on a missing key only NotIn matches.
   */
  lemma InNotInComplementary(key: string, values: set<string>, labels: LabelSet)
    ensures key in labels ==>
      (RequirementMatches(Requirement(key, SelectIn, values), labels) <==>
       !RequirementMatches(Requirement(key, SelectNotIn, values), labels))
    ensures key !in labels ==>
      !RequirementMatches(Requirement(key, SelectIn, values), labels) &&
      RequirementMatches(Requirement(key, SelectNotIn, values), labels)
  {
  }

  /** Compiled Exists and DoesNotExist requirements on the same key always disagree. */
  lemma ExistsComplementary(key: string, labels: LabelSet)
    ensures RequirementMatches(Requirement(key, SelectExists, {}), labels) <==>
      !RequirementMatches(Requirement(key, SelectDoesNotExist, {}), labels)
  {
  }

  // ---------------------------------------------------------------------------
  // Printed columns
  // ---------------------------------------------------------------------------

  /**
   * The target-type column reads deployment or statefulset on a match row,
   * and a not-found row reads TARGET-NOT-FOUND in both its target-type and
   * target-name columns, with replicas -1.
   */
  lemma TargetColumns(p: Pdb, w: Workload)
    ensures KindName(TargetRow(p, DeploymentKind, w).kind) == "deployment"
    ensures KindName(TargetRow(p, StatefulSetKind, w).kind) == "statefulset"
    ensures KindName(NotFoundRow(p).kind) == NotFoundRow(p).targetName == "TARGET-NOT-FOUND"
    ensures NotFoundRow(p).replicas == -1
  {
  }

  // ---------------------------------------------------------------------------
  // Worked examples
  // ---------------------------------------------------------------------------

  /** A PDB selecting app=x and one Deployment labelled app=x with three replicas. */
  lemma ExampleOneDeployment()
    ensures var p := Pdb("pdb-a", Some("1"), None, LabelSelector(map["app" := "x"], []));
      var d := Workload("dep-a", 3, map["app" := "x"]);
      Resolution([p], [d], []) ==
        Report([Header, Row("pdb-a", Some("1"), None, DeploymentKind, "dep-a", 3)], Completed)
  {
    var p := Pdb("pdb-a", Some("1"), None, LabelSelector(map["app" := "x"], []));
    var d := Workload("dep-a", 3, map["app" := "x"]);
    var s := Selector(map["app" := "x"], []);
    assert Compile(p.selector) == Success(s);
    assert Selected(s, d);
    assert [d][..0] == [];
    assert Matching(s, [d]) == [d];
    var row := Row("pdb-a", Some("1"), None, DeploymentKind, "dep-a", 3);
    assert ResolvePdb(p, [d], []) == PdbResult([row], Resolved);
    ResolveAllSingle(p, [d], []);
  }

  /** A PDB selecting app=y with no candidate at all gets the not-found row. */
  lemma ExampleNotFound()
    ensures var p := Pdb("pdb-b", None, Some("25%"), LabelSelector(map["app" := "y"], []));
      Resolution([p], [], []) ==
        Report([Header, Row("pdb-b", None, Some("25%"), NotFoundKind, TARGET_NOT_FOUND, -1)], Completed)
  {
    var p := Pdb("pdb-b", None, Some("25%"), LabelSelector(map["app" := "y"], []));
    ResolveAllSingle(p, [], []);
  }
}
