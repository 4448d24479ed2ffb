/**
 * Kubernetes label selectors: the selector as written in a PodDisruptionBudget
 * (matchLabels plus matchExpressions), its compilation into a checked selector
 * (metav1.LabelSelectorAsSelector) and the match of a checked selector against
 * a label set (labels.Selector.Matches).
 */
module Labels {
  import opened Wrappers

  /** The labels of a pod template, key to value. */
  type LabelSet = map<string, string>

  /** The operator of a match expression as it appears in the selector. */
  datatype Operator = In | NotIn | Exists | DoesNotExist | Unrecognised(name: string)

  /** One entry of matchExpressions. */
  datatype Expression = Expression(key: string, operator: Operator, values: seq<string>)

  /** A selector as written: equality constraints and expression requirements. */
  datatype LabelSelector = LabelSelector(matchLabels: map<string, string>, matchExpressions: seq<Expression>)

  /** The operators a checked requirement can carry. */
  datatype Selection = SelectIn | SelectNotIn | SelectExists | SelectDoesNotExist

  /** A checked requirement: its operator is known and its values form a set. */
  datatype Requirement = Requirement(key: string, selection: Selection, values: set<string>)

  /** A compiled selector: the equality constraints and the checked requirements. */
  datatype Selector = Selector(equalities: map<string, string>, requirements: seq<Requirement>)

  /** Why a selector does not compile. */
  datatype CompileError =
    | InvalidOperator(operatorName: string)
    | EmptyValues(key: string)
    | UnexpectedValues(key: string)

  // ---------------------------------------------------------------------------
  // Reference meaning of a selector as written
  // ---------------------------------------------------------------------------

  /** What a match expression demands of a label set, read off the expression. */
  ghost predicate ExpressionHolds(e: Expression, labels: LabelSet)
  {
    match e.operator
    case In => e.key in labels && labels[e.key] in e.values
    case NotIn => e.key !in labels || labels[e.key] !in e.values
    case Exists => e.key in labels
    case DoesNotExist => e.key !in labels
    case Unrecognised(_) => false
  }

  /** In and NotIn need at least one value; Exists and DoesNotExist take none. */
  ghost predicate WellFormedExpression(e: Expression)
  {
    match e.operator
    case In => |e.values| > 0
    case NotIn => |e.values| > 0
    case Exists => |e.values| == 0
    case DoesNotExist => |e.values| == 0
    case Unrecognised(_) => false
  }

  ghost predicate WellFormed(sel: LabelSelector)
  {
    forall i :: 0 <= i < |sel.matchExpressions| ==> WellFormedExpression(sel.matchExpressions[i])
  }

  /** Every matchLabels pair is present, and every expression holds. */
  ghost predicate Selects(sel: LabelSelector, labels: LabelSet)
  {
    (forall k :: k in sel.matchLabels ==> k in labels && labels[k] == sel.matchLabels[k]) &&
    (forall i :: 0 <= i < |sel.matchExpressions| ==> ExpressionHolds(sel.matchExpressions[i], labels))
  }

  // ---------------------------------------------------------------------------
  // Matching a compiled selector
  // ---------------------------------------------------------------------------

  predicate RequirementMatches(r: Requirement, labels: LabelSet)
  {
    match r.selection
    case SelectIn => r.key in labels && labels[r.key] in r.values
    case SelectNotIn => r.key !in labels || labels[r.key] !in r.values
    case SelectExists => r.key in labels
    case SelectDoesNotExist => r.key !in labels
  }

  predicate AllMatch(rs: seq<Requirement>, labels: LabelSet)
    decreases |rs|
  {
    rs == [] || (RequirementMatches(rs[0], labels) && AllMatch(rs[1..], labels))
  }

  /** The compiled predicate: all equalities and all requirements, ANDed. */
  predicate Matches(s: Selector, labels: LabelSet)
  {
    (forall k | k in s.equalities :: k in labels && labels[k] == s.equalities[k]) &&
    AllMatch(s.requirements, labels)
  }

  // ---------------------------------------------------------------------------
  // Compilation
  // ---------------------------------------------------------------------------

  /** Checks one match expression and turns it into a requirement. */
  function CompileExpression(e: Expression): (r: Result<Requirement, CompileError>)
    ensures r.Success? <==> WellFormedExpression(e)
    ensures r.Success? ==> forall labels :: RequirementMatches(r.value, labels) <==> ExpressionHolds(e, labels)
  {
    var values := set v | v in e.values;
    match e.operator
    case In =>
      if |e.values| == 0 then Failure(EmptyValues(e.key)) else Success(Requirement(e.key, SelectIn, values))
    case NotIn =>
      if |e.values| == 0 then Failure(EmptyValues(e.key)) else Success(Requirement(e.key, SelectNotIn, values))
    case Exists =>
      if |e.values| != 0 then Failure(UnexpectedValues(e.key)) else Success(Requirement(e.key, SelectExists, {}))
    case DoesNotExist =>
      if |e.values| != 0 then Failure(UnexpectedValues(e.key)) else Success(Requirement(e.key, SelectDoesNotExist, {}))
    case Unrecognised(name) => Failure(InvalidOperator(name))
  }

  /**
   * Compiles the expressions in order and stops at the first one that does
   * not compile, whose error it reports.
   */
  function CompileExpressions(es: seq<Expression>): (r: Result<seq<Requirement>, CompileError>)
    ensures r.Success? <==> forall i :: 0 <= i < |es| ==> WellFormedExpression(es[i])
    ensures r.Success? ==>
      forall labels :: AllMatch(r.value, labels) <==> forall i :: 0 <= i < |es| ==> ExpressionHolds(es[i], labels)
    ensures r.Failure? ==>
      exists i :: 0 <= i < |es| && (forall j :: 0 <= j < i ==> WellFormedExpression(es[j])) &&
                  CompileExpression(es[i]) == Failure(r.error)
    decreases |es|
  {
    if es == [] then Success([])
    else
      match CompileExpression(es[0])
      case Failure(err) => Failure(err)
      case Success(req) =>
        match CompileExpressions(es[1..])
        case Failure(err) =>
          assert forall i :: 1 <= i < |es| ==> es[i] == es[1..][i - 1];
          Failure(err)
        case Success(rest) =>
          assert forall i :: 1 <= i < |es| ==> es[i] == es[1..][i - 1];
          assert ([req] + rest)[1..] == rest;
          Success([req] + rest)
  }

  /** metav1.LabelSelectorAsSelector: a compiled selector, or the first error. */
  function Compile(sel: LabelSelector): (r: Result<Selector, CompileError>)
    ensures r.Success? <==> WellFormed(sel)
  {
    match CompileExpressions(sel.matchExpressions)
    case Failure(err) => Failure(err)
    case Success(reqs) => Success(Selector(sel.matchLabels, reqs))
  }

  /** A compiled selector matches exactly the label sets the selector as written selects. */
  lemma CompileMeaning(sel: LabelSelector, labels: LabelSet)
    requires Compile(sel).Success?
    ensures Matches(Compile(sel).value, labels) <==> Selects(sel, labels)
  {
  }
}
