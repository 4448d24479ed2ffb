# pdbs: PodDisruptionBudget target resolution in Dafny

`pdbs` is a small command that reads a certsuite claim file and prints one CSV
report. For every PodDisruptionBudget (PDB) in the claim, the report names the
Deployment or StatefulSet the PDB protects. This project models the part of the
command with real logic: the resolution loop in `main` (main.go:58-94). For each
PDB the loop does the following:

- It compiles the PDB's label selector. A selector that does not compile
  aborts the run (main.go:62-65).
- It resets a `targetFound` flag (main.go:67).
- It tests the selector against the pod-template labels of every Deployment and
  prints one `deployment` row per match (main.go:69-76).
- It then tests the selector against every StatefulSet. A StatefulSet match
  while `targetFound` is already set aborts the run; otherwise it prints one
  `statefulset` row (main.go:78-89).
- A PDB that matched nothing gets one `TARGET-NOT-FOUND` row with replica count
  -1 (main.go:91-93).

The CSV header is printed once, before the loop (main.go:59).

The abort rule is asymmetric, and the model keeps it that way:

- Any number of matching Deployments is accepted.
- A StatefulSet match after an earlier match of either kind aborts.
- Rows printed before an abort stay printed.

One might expect any second match to abort. The code instead lets several
matching Deployments through, and only a StatefulSet match after an earlier
match aborts. This model follows the code.

## Layout

- `wrappers.dfy` (`Wrappers`): `Option` and `Result`.
- `labels.dfy` (`Labels`): Kubernetes label selectors. It has:
  - the selector as written (`LabelSelector`: matchLabels and matchExpressions with operators
    In, NotIn, Exists, DoesNotExist or an unrecognised one);
  - its reference meaning `Selects`;
  - compilation `Compile`, standing for `metav1.LabelSelectorAsSelector`;
  - the compiled predicate `Matches`, standing for `labels.Selector.Matches`.
- `resolver.dfy` (`Resolver`): the records and the printed lines, plus the
  declarative meaning of a run:
  - `ResolvePdb` is one PDB;
  - `Combine` and `ResolveAll` are all PDBs in order, stopping at the first abort;
  - `Resolution` is the header followed by those rows.
- `properties.dfy` (`ResolutionProperties`): the lemmas about that meaning.
- `report.dfy` (`PdbReport`): the loop itself as imperative code.
  - `ResolveTarget` is the body for one PDB, with the two `for` loops and the
    `targetFound` flag.
  - `Run` is the outer loop that collects the printed lines.
  - Both are proved equal to the declarative functions.

A panic is modelled as an `Outcome` returned with the lines printed so far:

- `AmbiguousTarget(pdbName)` for main.go:83;
- `SelectorFailure(pdbName, error)` for main.go:64. The name is the model's
  own addition; the program's message carries only the library error.

Standard output is the returned sequence of `Line`s. A `Line` is `Header` or a
structured `Row` holding the six CSV columns of the header at main.go:59
(pdb-name, pdb-minAvailable, pdb-maxUnavailable, target-type, target-name,
target-replicas).

## Model

| member | source | states |
|---|---|---|
| Labels.CompileExpression | main.go:62 | an expression compiles exactly when its operator is known and its values suit it (In/NotIn need values, Exists/DoesNotExist take none); the compiled requirement matches exactly the label sets the expression admits |
| Labels.CompileExpressions | main.go:62-65 | the expression list compiles exactly when every expression does; the compiled requirements all match exactly when every expression holds; on failure the error is that of an expression preceded only by well-formed ones |
| Labels.Compile | main.go:62-65 | a selector compiles exactly when all of its match expressions are well formed |
| Labels.CompileMeaning | main.go:72 | a compiled selector matches a label set exactly when every matchLabels pair is present and every match expression holds |
| Resolver.ResolvePdb | main.go:62-93 | every line printed for a PDB is a row carrying that PDB's name, minAvailable and maxUnavailable |
| Resolver.OutcomeOf | main.go:81-84 | the run goes on after a PDB exactly when that PDB resolved without abort |
| ResolutionProperties.MatchIndices | main.go:69-76 | the positions of the matching workloads are strictly increasing and in one-to-one correspondence with the matches, in input order |
| ResolutionProperties.MatchIndicesSelected | main.go:72 | every listed position holds a workload the selector matches |
| ResolutionProperties.MatchIndicesComplete | main.go:72 | every position whose workload the selector matches is listed |
| ResolutionProperties.MatchIndicesExact | main.go:81 | the listed positions are exactly the matching ones |
| ResolutionProperties.AnyMatchIff | main.go:67-76 | some candidate matches exactly when at least one match is collected, so `targetFound` is set exactly when a row was printed |
| ResolutionProperties.TwoMatchIff | main.go:78-89 | two distinct candidates match exactly when at least two matches are collected |
| ResolutionProperties.MatchingPrefix | main.go:78-84 | what a prefix of the candidates matches is a prefix of what all of them match, so rows printed before an abort are the leading matches |
| ResolutionProperties.AmbiguityRule | main.go:81-84 | a PDB whose selector compiles aborts exactly when two StatefulSets match or a Deployment and a StatefulSet both match; otherwise it resolves |
| ResolutionProperties.DeploymentRows | main.go:69-76 | with Deployment matches and no StatefulSet match the PDB resolves, with one `deployment` row per matching Deployment in input order, however many there are |
| ResolutionProperties.LoneMatch | main.go:78-88 | when exactly one candidate matches, the matches are that candidate alone |
| ResolutionProperties.LoneStatefulSet | main.go:78-88 | exactly one matching StatefulSet and no matching Deployment give exactly one `statefulset` row for it, and the PDB resolves |
| ResolutionProperties.AmbiguousRows | main.go:73-84 | on an ambiguous PDB the rows printed are every matching Deployment's, or, when there is none, the first matching StatefulSet's only; the clashing StatefulSet gets no row |
| ResolutionProperties.NotFoundRule | main.go:91-93 | a PDB whose selector compiles gets the not-found row exactly when no candidate matches, and then that row alone with replicas -1 |
| ResolutionProperties.DeploymentRowsFirst | main.go:69-89 | within one PDB no `deployment` row follows a `statefulset` row |
| ResolutionProperties.SelectorFailureFirst | main.go:62-65 | a selector that does not compile prints nothing for its PDB and reports the compilation error |
| ResolutionProperties.CombineRows | main.go:61-94 | combining per-PDB results whose lines are all rows prints only rows |
| ResolutionProperties.HeaderOnce | main.go:59 | the header is the first printed line and no other line is a header |
| ResolutionProperties.CombineAppend | main.go:61 | combining the results of two PDB lists is combining the first and, only when it completed, appending the second |
| ResolutionProperties.ResultsAppend | main.go:61 | resolving PDBs one by one commutes with concatenating PDB lists |
| ResolutionProperties.ResolveAllAppend | main.go:67 | PDBs are resolved independently (the flag is reset per PDB): the run over a + b is the run over a followed, when it completed, by the run over b alone |
| ResolutionProperties.ResolveAllSingle | main.go:61-94 | the run over one PDB prints that PDB's rows and ends with its outcome |
| ResolutionProperties.AbortIsFinal | main.go:81-84 | once a prefix of the PDBs aborts, the later PDBs change neither the lines nor the outcome |
| ResolutionProperties.ResolveAllStep | main.go:61-94 | extending a completed run by one PDB appends its rows, and if it aborts the whole run ends there with its outcome |
| ResolutionProperties.RunStep | main.go:61-94 | one iteration of the outer loop takes the printed lines for the first i PDBs to those for i + 1, or to the whole run's lines when PDB i aborts |
| ResolutionProperties.CombineCompletedIff | main.go:61-94 | combined results complete exactly when every PDB resolved |
| ResolutionProperties.CompletedIff | main.go:61-94 | the run completes exactly when every PDB resolves |
| ResolutionProperties.FirstFailure | main.go:61-94 | the first PDB that does not resolve ends the run, and the earlier PDBs' rows and its own partial rows are what was printed; the outcome carries that PDB's name (which the program prints only for the abort at main.go:83) |
| ResolutionProperties.SelectorFailureAborts | main.go:62-65 | a selector that does not compile aborts the run with its compilation error, after the earlier PDBs' rows and with no row of its own; the outcome also carries the PDB's name, which the program's message at main.go:64 does not |
| ResolutionProperties.AmbiguityAborts | main.go:81-84 | an ambiguous PDB aborts the run naming that PDB; no later PDB is processed |
| ResolutionProperties.CompletedSplit | main.go:61-94 | a completed run splits at any point into two completed runs whose lines concatenate to its own |
| ResolutionProperties.RowsInPdbOrder | main.go:61-94 | in a completed run, PDB k's rows come after all earlier PDBs' rows and before all later PDBs' rows |
| ResolutionProperties.EmptySelectorMatchesAll | main.go:62 | a selector with no constraints compiles and matches every label set |
| ResolutionProperties.EqualityForm | main.go:62 | a matchLabels-only selector compiles and matches exactly the label sets holding every pair |
| ResolutionProperties.InNotInComplementary | main.go:72 | on a present key the compiled In and NotIn requirements over the same values disagree; on a missing key only NotIn matches |
| ResolutionProperties.ExistsComplementary | main.go:72 | the compiled Exists and DoesNotExist requirements on the same key always disagree |
| ResolutionProperties.TargetColumns | main.go:73-92 | a match row's target-type column reads deployment or statefulset; a not-found row reads TARGET-NOT-FOUND as both target type and target name, with replicas -1 |
| ResolutionProperties.ExampleOneDeployment | main.go:59-76 | a PDB selecting app=x and one Deployment labelled app=x with 3 replicas print the header and one `deployment` row with 3 replicas |
| ResolutionProperties.ExampleNotFound | main.go:59-93 | a PDB with no candidates prints the header and one `TARGET-NOT-FOUND` row with replicas -1 |
| PdbReport.ResolveTarget | main.go:62-93 | the loop body for one PDB (compile, Deployment loop, StatefulSet loop with the `targetFound` check, not-found row) prints exactly the rows and reaches exactly the status `ResolvePdb` gives |
| PdbReport.Run | main.go:58-94 | the whole loop prints exactly the lines of `Resolution`, header first, and ends with its outcome |

## Left out

- Flag parsing, reading the claim file and JSON decoding (main.go:15-53): I/O. The PDBs, Deployments and StatefulSets are the parameters of `Run`.
- The byte layout of printed lines: `fmt.Println` spacing and the rendering of `MinAvailable`/`MaxUnavailable` by `IntOrString.String()` (main.go:73,86,92) are library formatting. A row is a structured value, and the budget values are already-rendered text or `None`.
- `panic` and process exit (main.go:64,83): modelled as the `Outcome` value returned with the lines printed so far. Message texts are not modelled. The main.go:83 message names the PDB, and `AmbiguousTarget` carries that name. The main.go:64 message carries only the library error, and it mislabels the selector as "for sts". `SelectorFailure` adds the PDB's name to identify the PDB whose selector failed.
- A nil selector, which `LabelSelectorAsSelector` turns into a selector matching nothing: that is library behaviour not visible in this source, so every PDB here carries a selector.
- Syntax checks of label keys and values that the library's requirement constructor performs: library internals. Only the operator and value-count checks are modelled as compilation errors.
- A nil `Spec.Replicas`, which the code dereferences (main.go:73,86): replicas are a plain non-negative integer.
- Resolver.Matching: has no contract of its own; `MatchIndices` and the lemmas beside it state what it collects.
- Resolver.TargetRows: a helper whose contract only spells out its rows one by one; DeploymentRows, AmbiguousRows and LoneStatefulSet state which rows a PDB prints.
- Resolver.Results: a helper; its contract gives only the length. ResultsAppend and CompletedIff state what it produces.
- Labels.Matches: has no contract of its own; CompileMeaning states what a compiled selector matches.
- Resolver.IsAmbiguous: has no contract of its own; AmbiguityRule states the `targetFound` test it encodes (main.go:82).
- Resolver.TargetRow, Resolver.NotFoundRow and Resolver.KindName: no contracts of their own; TargetColumns and NotFoundRule state the rows they build.
- Resolver.Combine, Resolver.ResolveAll and Resolver.Resolution: no contracts of their own; HeaderOnce, FirstFailure, CompletedIff, AbortIsFinal and RowsInPdbOrder state what the header and the outer loop print; `PdbReport.Run` is proved equal to Resolution.
