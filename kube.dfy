/**
  The Kubernetes API types the budget controller reads, and the library
  calls it relies on (label and field selectors, requirement validation).
  Library behaviour that lies outside the controller is not fixed here: it
  is carried by a `Library` value whose fields are arbitrary total
  functions, so every result about the controller holds for any of them.
*/
module Kube {
  import opened Wrappers

  /** The operators of a label requirement (package `selection`) that a node selector maps to. */
  datatype Operator = In | NotIn | Exists | DoesNotExist

  /** A validated `labels.Requirement`: a key, an operator and its values. */
  datatype Requirement = Requirement(key: string, op: Operator, values: seq<string>)

  /**
    A `labels.Selector`. `LabelNothing` is `labels.Nothing()`, which matches no
    object and is not empty; `LabelRequirements(rs)` is the conjunction of `rs`,
    and with no requirement at all it is `labels.Everything()`.
  */
  datatype LabelSelector = LabelNothing | LabelRequirements(requirements: seq<Requirement>) {
    predicate Empty() { LabelRequirements? && requirements == [] }
  }

  /** A `fields.Selector`, shaped like `LabelSelector`: nothing, or a conjunction of terms. */
  datatype FieldSelector = FieldNothing | FieldRequirements(requirements: seq<Requirement>) {
    predicate Empty() { FieldRequirements? && requirements == [] }
  }

  const LabelEverything: LabelSelector := LabelRequirements([])
  const FieldEverything: FieldSelector := FieldRequirements([])

  /** `metav1.LabelSelectorRequirement` and `metav1.LabelSelector`, as a budget spec holds them. */
  datatype LabelSelectorRequirement = LabelSelectorRequirement(key: string, operator: string, values: seq<string>)
  datatype LabelSelectorSpec = LabelSelectorSpec(matchLabels: map<string, string>, matchExpressions: seq<LabelSelectorRequirement>)

  /** `corev1.NodeSelectorRequirement`; its operator is a free-form string. */
  datatype NodeSelectorRequirement = NodeSelectorRequirement(key: string, operator: string, values: seq<string>)

  /** `corev1.NodeSelectorTerm`: requirements on node labels and on node fields. */
  datatype NodeSelectorTerm = NodeSelectorTerm(matchExpressions: seq<NodeSelectorRequirement>, matchFields: seq<NodeSelectorRequirement>)

  /** `corev1.NodeSelector`: a list of terms. */
  datatype NodeSelector = NodeSelector(nodeSelectorTerms: seq<NodeSelectorTerm>)

  /** The calls the controller makes to the cluster store, as named by a failure. */
  datatype Call =
    | ListPods
    | ListPersistentVolumeClaims
    | GetPersistentVolume(name: string)
    | ListNodes(forVolume: string)
    | ListNodeDisruptions
    | GetDisruption(disruption: string)

  datatype Error =
    | InvalidOperator(operator: string)    // an operator a node requirement cannot carry
    | InvalidRequirement(key: string)      // rejected by `labels.NewRequirement`
    | InvalidLabelSelector                 // rejected by `metav1.LabelSelectorAsSelector`
    | InvalidFieldSelector                 // rejected by `fields.ParseSelector`
    | NotFound(name: string)               // a `Get` of an object that does not exist
    | EmptyName                            // a `Get` with an empty object name
    | StoreFailure(call: Call)             // any other failure of a store call
    | UnhealthyResponse(body: string)      // a non-2xx answer of the health endpoint

  /**
    The library behaviour the controller depends on without defining it:
    the outcome of converting a non-empty `metav1.LabelSelector`, whether
    `labels.NewRequirement` accepts a key, operator and values, whether
    `fields.ParseSelector` accepts the text of a non-empty list of field
    requirements, and whether one requirement matches a label or field set.
  */
  datatype Library = Library(
    labelSelectorAsSelector: LabelSelectorSpec -> Option<LabelSelector>,
    requirementValid: Requirement -> bool,
    fieldSelectorParses: seq<Requirement> -> bool,
    labelMatches: (Requirement, map<string, string>) -> bool,
    fieldMatches: (Requirement, map<string, string>) -> bool)

  /** A `metav1.LabelSelector` with neither `matchLabels` nor `matchExpressions`. */
  const EmptyLabelSelectorSpec: LabelSelectorSpec := LabelSelectorSpec(map[], [])

  /**
    `metav1.LabelSelectorAsSelector`: a selector with no labels and no
    expressions converts to `labels.Everything()`; converting any other
    selector is left to the library.
  */
  function LabelSelectorAsSelector(lib: Library, s: LabelSelectorSpec): (r: Result<LabelSelector, Error>)
    ensures s == EmptyLabelSelectorSpec ==> r == Ok(LabelEverything) && r.value.Empty()
    ensures r.Err? ==> r == Err(InvalidLabelSelector)
  {
    if s == EmptyLabelSelectorSpec then Ok(LabelEverything)
    else
      match lib.labelSelectorAsSelector(s)
      case Some(selector) => Ok(selector)
      case None => Err(InvalidLabelSelector)
  }

  /** `labels.NewRequirement`: the requirement itself, or the validation error. */
  function NewRequirement(lib: Library, key: string, op: Operator, values: seq<string>): Result<Requirement, Error> {
    var r := Requirement(key, op, values);
    if lib.requirementValid(r) then Ok(r) else Err(InvalidRequirement(key))
  }

  /**
    `fields.ParseSelector` applied to the comma-joined text of `rs`. The
    empty text parses to `fields.Everything()`; whether a non-empty text
    parses is left to the library.
  */
  function ParseFieldSelector(lib: Library, rs: seq<Requirement>): (r: Result<FieldSelector, Error>)
    ensures r.Ok? ==> (r.value.Empty() <==> rs == [])
    ensures r.Err? <==> rs != [] && !lib.fieldSelectorParses(rs)
  {
    if rs == [] then Ok(FieldEverything)
    else if lib.fieldSelectorParses(rs) then Ok(FieldRequirements(rs))
    else Err(InvalidFieldSelector)
  }

  /** `Selector.Matches` for labels: nothing matches `LabelNothing`; otherwise every requirement must. */
  predicate LabelSelectorMatches(lib: Library, s: LabelSelector, labels: map<string, string>) {
    match s
    case LabelNothing => false
    case LabelRequirements(rs) => forall i | 0 <= i < |rs| :: lib.labelMatches(rs[i], labels)
  }

  /** `Selector.Matches` for fields, with the same shape. */
  predicate FieldSelectorMatches(lib: Library, s: FieldSelector, fields: map<string, string>) {
    match s
    case FieldNothing => false
    case FieldRequirements(rs) => forall i | 0 <= i < |rs| :: lib.fieldMatches(rs[i], fields)
  }
}
