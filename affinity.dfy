/**
  Translation of a persistent volume's required node affinity (a
  `corev1.NodeSelector`) into one label selector and one field selector,
  as `NodeLabelSelectorAsRequirement` and `NodeSelectorAsSelector` do it.
  All requirements of all terms are joined into a single conjunction.
*/
module Affinity {
  import opened Wrappers
  import opened Kube

  /** The `corev1.NodeSelectorOperator` spelling of each selection operator. */
  function NodeOperatorName(op: Operator): string {
    match op
    case In => "In"
    case NotIn => "NotIn"
    case Exists => "Exists"
    case DoesNotExist => "DoesNotExist"
  }

  /**
    The operator switch: a node operator name to the selection operator of
    the same meaning, or `None` for every other string.
  */
  function SelectionOperator(name: string): (r: Option<Operator>)
    ensures r.Some? ==> NodeOperatorName(r.value) == name
    ensures forall op: Operator :: NodeOperatorName(op) == name ==> r == Some(op)
  {
    if name == "In" then Some(In)
    else if name == "NotIn" then Some(NotIn)
    else if name == "Exists" then Some(Exists)
    else if name == "DoesNotExist" then Some(DoesNotExist)
    else None
  }

  /**
    One node requirement as a label requirement: an unknown operator is an
    `InvalidOperator` error; a known one keeps key and values and is then
    subject to the library's requirement validation.
  */
  function NodeLabelSelectorAsRequirement(lib: Library, expr: NodeSelectorRequirement): (r: Result<Requirement, Error>)
    ensures r == Err(InvalidOperator(expr.operator)) <==> forall op: Operator :: NodeOperatorName(op) != expr.operator
    ensures r.Ok? ==> && r.value.key == expr.key
                      && r.value.values == expr.values
                      && NodeOperatorName(r.value.op) == expr.operator
                      && lib.requirementValid(r.value)
    ensures forall op: Operator :: NodeOperatorName(op) == expr.operator ==>
              (r.Ok? <==> lib.requirementValid(Requirement(expr.key, op, expr.values)))
    ensures r.Err? && r.error != InvalidOperator(expr.operator) ==> r.error == InvalidRequirement(expr.key)
  {
    match SelectionOperator(expr.operator)
    case None => Err(InvalidOperator(expr.operator))
    case Some(op) => NewRequirement(lib, expr.key, op, expr.values)
  }

  /** The requirements of one list translated in order; the first failure aborts. */
  function TranslateRequirements(lib: Library, exprs: seq<NodeSelectorRequirement>): Result<seq<Requirement>, Error>
    decreases |exprs|
  {
    if exprs == [] then Ok([])
    else
      var init :- TranslateRequirements(lib, exprs[..|exprs| - 1]);
      var last :- NodeLabelSelectorAsRequirement(lib, exprs[|exprs| - 1]);
      Ok(init + [last])
  }

  /**
    The label and field requirements of all terms, accumulated term by
    term: a term's expressions, then its fields. The first failure aborts.
  */
  function TranslateTerms(lib: Library, terms: seq<NodeSelectorTerm>): Result<(seq<Requirement>, seq<Requirement>), Error>
    decreases |terms|
  {
    if terms == [] then Ok(([], []))
    else
      var acc :- TranslateTerms(lib, terms[..|terms| - 1]);
      var term := terms[|terms| - 1];
      var labels :- TranslateRequirements(lib, term.matchExpressions);
      var fields :- TranslateRequirements(lib, term.matchFields);
      Ok((acc.0 + labels, acc.1 + fields))
  }

  /** All `matchExpressions` of all terms, in term order. */
  function FlattenExpressions(terms: seq<NodeSelectorTerm>): seq<NodeSelectorRequirement>
    decreases |terms|
  {
    if terms == [] then [] else FlattenExpressions(terms[..|terms| - 1]) + terms[|terms| - 1].matchExpressions
  }

  /** All `matchFields` of all terms, in term order. */
  function FlattenFields(terms: seq<NodeSelectorTerm>): seq<NodeSelectorRequirement>
    decreases |terms|
  {
    if terms == [] then [] else FlattenFields(terms[..|terms| - 1]) + terms[|terms| - 1].matchFields
  }

  /** Every requirement in the order the translation visits them: per term, expressions then fields. */
  function ProcessingOrder(terms: seq<NodeSelectorTerm>): seq<NodeSelectorRequirement>
    decreases |terms|
  {
    if terms == [] then []
    else
      var term := terms[|terms| - 1];
      ProcessingOrder(terms[..|terms| - 1]) + term.matchExpressions + term.matchFields
  }

  /** The selectors `NodeSelectorAsSelector` returns. */
  datatype Selectors = Selectors(labelSelector: LabelSelector, fieldSelector: FieldSelector)

  /**
    What `NodeSelectorAsSelector` computes: nothing/nothing for a nil
    selector, everything/everything for no terms, otherwise the flattened
    requirements, with the field requirements passed through the parser.
  */
  function SelectorsOf(lib: Library, ns: Option<NodeSelector>): Result<Selectors, Error> {
    match ns
    case None => Ok(Selectors(LabelNothing, FieldNothing))
    case Some(selector) =>
      if |selector.nodeSelectorTerms| == 0 then Ok(Selectors(LabelEverything, FieldEverything))
      else
        var requirements :- TranslateTerms(lib, selector.nodeSelectorTerms);
        var fieldSelector :- ParseFieldSelector(lib, requirements.1);
        Ok(Selectors(LabelRequirements(requirements.0), fieldSelector))
  }

  /** Translating a concatenation translates the first part, then the second; the first failure wins. */
  lemma {:induction false} TranslateRequirementsAppend(lib: Library, a: seq<NodeSelectorRequirement>, b: seq<NodeSelectorRequirement>)
    ensures TranslateRequirements(lib, a + b) ==
      match TranslateRequirements(lib, a)
      case Err(e) => Err(e)
      case Ok(x) =>
        match TranslateRequirements(lib, b)
        case Err(e) => Err(e)
        case Ok(y) => Ok(x + y)
    decreases |b|
  {
    if b == [] {
      assert a + b == a;
      assert TranslateRequirements(lib, b) == Ok([]);
      match TranslateRequirements(lib, a)
      case Err(e) =>
      case Ok(x) => assert x + [] == x;
    } else {
      var init := b[..|b| - 1];
      assert (a + b)[..|a + b| - 1] == a + init;
      assert (a + b)[|a + b| - 1] == b[|b| - 1];
      TranslateRequirementsAppend(lib, a, init);
      match TranslateRequirements(lib, a)
      case Err(e) =>
      case Ok(x) =>
        match TranslateRequirements(lib, init)
        case Err(e) =>
        case Ok(y) =>
          match NodeLabelSelectorAsRequirement(lib, b[|b| - 1])
          case Err(e) =>
          case Ok(z) => assert x + y + [z] == x + (y + [z]);
    }
  }

  /**
    Translating a list succeeds exactly when every element translates, the
    result is then the element-wise translation, and a failure is the error
    of the first element that fails.
  */
  lemma {:induction false} TranslateRequirementsPointwise(lib: Library, exprs: seq<NodeSelectorRequirement>)
    ensures TranslateRequirements(lib, exprs).Ok? <==>
              forall i | 0 <= i < |exprs| :: NodeLabelSelectorAsRequirement(lib, exprs[i]).Ok?
    ensures TranslateRequirements(lib, exprs).Ok? ==>
              && |TranslateRequirements(lib, exprs).value| == |exprs|
              && forall i | 0 <= i < |exprs| ::
                   NodeLabelSelectorAsRequirement(lib, exprs[i]) == Ok(TranslateRequirements(lib, exprs).value[i])
    ensures TranslateRequirements(lib, exprs).Err? ==>
              exists k | 0 <= k < |exprs| ::
                && NodeLabelSelectorAsRequirement(lib, exprs[k]) == Err(TranslateRequirements(lib, exprs).error)
                && forall j | 0 <= j < k :: NodeLabelSelectorAsRequirement(lib, exprs[j]).Ok?
    decreases |exprs|
  {
    if exprs != [] {
      var n := |exprs| - 1;
      var init := exprs[..n];
      TranslateRequirementsPointwise(lib, init);
      assert forall i | 0 <= i < n :: init[i] == exprs[i];
      match TranslateRequirements(lib, init)
      case Err(e) =>
        assert TranslateRequirements(lib, exprs) == Err(e);
        var k :| 0 <= k < n && NodeLabelSelectorAsRequirement(lib, init[k]) == Err(e)
                 && forall j | 0 <= j < k :: NodeLabelSelectorAsRequirement(lib, init[j]).Ok?;
        assert NodeLabelSelectorAsRequirement(lib, exprs[k]) == Err(e);
        assert !NodeLabelSelectorAsRequirement(lib, exprs[k]).Ok?;
      case Ok(x) =>
        match NodeLabelSelectorAsRequirement(lib, exprs[n])
        case Err(e) =>
          assert TranslateRequirements(lib, exprs) == Err(e);
          assert forall j | 0 <= j < n :: NodeLabelSelectorAsRequirement(lib, exprs[j]).Ok?;
        case Ok(z) =>
          var y := x + [z];
          assert TranslateRequirements(lib, exprs) == Ok(y);
          forall i | 0 <= i < |exprs|
            ensures NodeLabelSelectorAsRequirement(lib, exprs[i]) == Ok(y[i])
          {
            if i < n {
              assert exprs[i] == init[i];
              assert y[i] == x[i];
            }
          }
    }
  }

  /**
    The term-by-term accumulation fails exactly when translating all
    requirements in visiting order fails, with the same error, and
    otherwise yields the translations of the flattened expressions and of
    the flattened fields.
  */
  lemma {:induction false} TranslateTermsFlattens(lib: Library, terms: seq<NodeSelectorTerm>)
    ensures TranslateTerms(lib, terms).Err? <==> TranslateRequirements(lib, ProcessingOrder(terms)).Err?
    ensures TranslateTerms(lib, terms).Err? ==>
              TranslateTerms(lib, terms).error == TranslateRequirements(lib, ProcessingOrder(terms)).error
    ensures TranslateTerms(lib, terms).Ok? ==>
              && TranslateRequirements(lib, FlattenExpressions(terms)).Ok?
              && TranslateRequirements(lib, FlattenFields(terms)).Ok?
              && TranslateTerms(lib, terms).value ==
                   (TranslateRequirements(lib, FlattenExpressions(terms)).value,
                    TranslateRequirements(lib, FlattenFields(terms)).value)
    decreases |terms|
  {
    if terms != [] {
      var init := terms[..|terms| - 1];
      var term := terms[|terms| - 1];
      TranslateTermsFlattens(lib, init);
      TranslateRequirementsAppend(lib, ProcessingOrder(init), term.matchExpressions);
      TranslateRequirementsAppend(lib, ProcessingOrder(init) + term.matchExpressions, term.matchFields);
      TranslateRequirementsAppend(lib, FlattenExpressions(init), term.matchExpressions);
      TranslateRequirementsAppend(lib, FlattenFields(init), term.matchFields);
    }
  }

  /** Once a prefix of the terms fails to translate, the whole list fails with the same error. */
  lemma {:induction false} TranslateTermsAbort(lib: Library, terms: seq<NodeSelectorTerm>, k: nat)
    requires k <= |terms|
    requires TranslateTerms(lib, terms[..k]).Err?
    ensures TranslateTerms(lib, terms) == TranslateTerms(lib, terms[..k])
    decreases |terms|
  {
    if k < |terms| {
      var init := terms[..|terms| - 1];
      assert init[..k] == terms[..k];
      TranslateTermsAbort(lib, init, k);
    } else {
      assert terms[..k] == terms;
    }
  }

  /** A list whose prefix translates and whose next element fails translates to that element's error. */
  lemma AbortAtRequirement(lib: Library, exprs: seq<NodeSelectorRequirement>, j: nat)
    requires j < |exprs|
    requires TranslateRequirements(lib, exprs[..j]).Ok?
    requires NodeLabelSelectorAsRequirement(lib, exprs[j]).Err?
    ensures TranslateRequirements(lib, exprs) == Err(NodeLabelSelectorAsRequirement(lib, exprs[j]).error)
  {
    assert exprs[..j + 1][..j] == exprs[..j];
    assert exprs == exprs[..j + 1] + exprs[j + 1..];
    TranslateRequirementsAppend(lib, exprs[..j + 1], exprs[j + 1..]);
  }

  /** A failure inside term `i`, after the terms before it translated, is the failure of the whole selector. */
  lemma AbortAtTerm(lib: Library, terms: seq<NodeSelectorTerm>, i: nat, e: Error)
    requires i < |terms|
    requires TranslateTerms(lib, terms[..i]).Ok?
    requires || TranslateRequirements(lib, terms[i].matchExpressions) == Err(e)
             || (TranslateRequirements(lib, terms[i].matchExpressions).Ok? && TranslateRequirements(lib, terms[i].matchFields) == Err(e))
    ensures SelectorsOf(lib, Some(NodeSelector(terms))) == Err(e)
  {
    assert terms[..i + 1][..i] == terms[..i];
    assert TranslateTerms(lib, terms[..i + 1]) == Err(e);
    TranslateTermsAbort(lib, terms, i + 1);
  }

  /** Translating one more term appends its expressions and its fields to the accumulated requirements. */
  lemma ExtendByTerm(lib: Library, terms: seq<NodeSelectorTerm>, i: nat, labels: seq<Requirement>, fields: seq<Requirement>)
    requires i < |terms|
    requires TranslateTerms(lib, terms[..i]) == Ok((labels, fields))
    requires TranslateRequirements(lib, terms[i].matchExpressions).Ok?
    requires TranslateRequirements(lib, terms[i].matchFields).Ok?
    ensures TranslateTerms(lib, terms[..i + 1]) ==
              Ok((labels + TranslateRequirements(lib, terms[i].matchExpressions).value,
                  fields + TranslateRequirements(lib, terms[i].matchFields).value))
  {
    assert terms[..i + 1][..i] == terms[..i];
  }

  /** Translating one more element of a list that translates so far appends its translation. */
  lemma ExtendByRequirement(lib: Library, exprs: seq<NodeSelectorRequirement>, j: nat)
    requires j < |exprs|
    requires TranslateRequirements(lib, exprs[..j]).Ok?
    requires NodeLabelSelectorAsRequirement(lib, exprs[j]).Ok?
    ensures TranslateRequirements(lib, exprs[..j + 1]) ==
              Ok(TranslateRequirements(lib, exprs[..j]).value + [NodeLabelSelectorAsRequirement(lib, exprs[j]).value])
  {
    assert exprs[..j + 1][..j] == exprs[..j];
  }

  /**
    `NodeSelectorAsSelector`: the nested loops append each term's label
    requirements and field requirements, returning on the first
    translation error; the field requirements are then parsed.
  */
  method NodeSelectorAsSelector(lib: Library, ns: Option<NodeSelector>) returns (r: Result<Selectors, Error>)
    ensures r == SelectorsOf(lib, ns)
    ensures ns.None? ==> r == Ok(Selectors(LabelNothing, FieldNothing))
    ensures ns.Some? && ns.value.nodeSelectorTerms == [] ==> r == Ok(Selectors(LabelEverything, FieldEverything))
  {
    if ns.None? {
      return Ok(Selectors(LabelNothing, FieldNothing));
    }
    var terms := ns.value.nodeSelectorTerms;
    if |terms| == 0 {
      return Ok(Selectors(LabelEverything, FieldEverything));
    }
    assert ns == Some(NodeSelector(terms));
    var labelsRequirements: seq<Requirement> := [];
    var fieldsRequirements: seq<Requirement> := [];
    var i := 0;
    while i < |terms|
      invariant 0 <= i <= |terms|
      invariant TranslateTerms(lib, terms[..i]) == Ok((labelsRequirements, fieldsRequirements))
    {
      var term := terms[i];
      ghost var labels0, fields0 := labelsRequirements, fieldsRequirements;
      ghost var translated: seq<Requirement> := [];
      var j := 0;
      while j < |term.matchExpressions|
        invariant 0 <= j <= |term.matchExpressions|
        invariant TranslateRequirements(lib, term.matchExpressions[..j]) == Ok(translated)
        invariant labelsRequirements == labels0 + translated
      {
        var req := NodeLabelSelectorAsRequirement(lib, term.matchExpressions[j]);
        if req.Err? {
          AbortAtRequirement(lib, term.matchExpressions, j);
          AbortAtTerm(lib, terms, i, req.error);
          return Err(req.error);
        }
        ExtendByRequirement(lib, term.matchExpressions, j);
        labelsRequirements := labelsRequirements + [req.value];
        translated := translated + [req.value];
        j := j + 1;
      }
      assert term.matchExpressions[..j] == term.matchExpressions;
      ghost var labelsOfTerm := translated;
      translated := [];
      j := 0;
      while j < |term.matchFields|
        invariant 0 <= j <= |term.matchFields|
        invariant TranslateRequirements(lib, term.matchFields[..j]) == Ok(translated)
        invariant fieldsRequirements == fields0 + translated
        invariant labelsRequirements == labels0 + labelsOfTerm
      {
        var req := NodeLabelSelectorAsRequirement(lib, term.matchFields[j]);
        if req.Err? {
          AbortAtRequirement(lib, term.matchFields, j);
          AbortAtTerm(lib, terms, i, req.error);
          return Err(req.error);
        }
        ExtendByRequirement(lib, term.matchFields, j);
        fieldsRequirements := fieldsRequirements + [req.value];
        translated := translated + [req.value];
        j := j + 1;
      }
      assert term.matchFields[..j] == term.matchFields;
      ExtendByTerm(lib, terms, i, labels0, fields0);
      i := i + 1;
    }
    assert terms[..i] == terms;
    var fieldSelector := ParseFieldSelector(lib, fieldsRequirements);
    if fieldSelector.Err? {
      return Err(fieldSelector.error);
    }
    return Ok(Selectors(LabelRequirements(labelsRequirements), fieldSelector.value));
  }

  /** Every requirement of `exprs` has a valid operator and passes validation. */
  predicate AllTranslate(lib: Library, exprs: seq<NodeSelectorRequirement>) {
    forall x | x in exprs :: NodeLabelSelectorAsRequirement(lib, x).Ok?
  }

  /** The requirement each element of `exprs` translates to. */
  function Translated(lib: Library, exprs: seq<NodeSelectorRequirement>): seq<Requirement>
    requires AllTranslate(lib, exprs)
  {
    seq(|exprs|, i requires 0 <= i < |exprs| => NodeLabelSelectorAsRequirement(lib, exprs[i]).value)
  }

  /** A requirement occurs in `FlattenExpressions` exactly when it occurs in the `matchExpressions` of some term. */
  lemma {:induction false} FlattenExpressionsMembers(terms: seq<NodeSelectorTerm>, x: NodeSelectorRequirement)
    ensures x in FlattenExpressions(terms) <==> exists k | 0 <= k < |terms| :: x in terms[k].matchExpressions
    decreases |terms|
  {
    if terms != [] {
      var n := |terms| - 1;
      var init := terms[..n];
      FlattenExpressionsMembers(init, x);
      assert FlattenExpressions(terms) == FlattenExpressions(init) + terms[n].matchExpressions;
      if x in FlattenExpressions(init) {
        var k :| 0 <= k < |init| && x in init[k].matchExpressions;
        assert terms[k] == init[k];
      }
      if exists k | 0 <= k < |terms| :: x in terms[k].matchExpressions {
        var k :| 0 <= k < |terms| && x in terms[k].matchExpressions;
        if k < n {
          assert init[k] == terms[k];
        }
      }
    }
  }

  /** A requirement occurs in `FlattenFields` exactly when it occurs in the `matchFields` of some term. */
  lemma {:induction false} FlattenFieldsMembers(terms: seq<NodeSelectorTerm>, x: NodeSelectorRequirement)
    ensures x in FlattenFields(terms) <==> exists k | 0 <= k < |terms| :: x in terms[k].matchFields
    decreases |terms|
  {
    if terms != [] {
      var n := |terms| - 1;
      var init := terms[..n];
      FlattenFieldsMembers(init, x);
      assert FlattenFields(terms) == FlattenFields(init) + terms[n].matchFields;
      if x in FlattenFields(init) {
        var k :| 0 <= k < |init| && x in init[k].matchFields;
        assert terms[k] == init[k];
      }
      if exists k | 0 <= k < |terms| :: x in terms[k].matchFields {
        var k :| 0 <= k < |terms| && x in terms[k].matchFields;
        if k < n {
          assert init[k] == terms[k];
        }
      }
    }
  }

  /** A requirement is visited exactly when it is among the flattened expressions or the flattened fields. */
  lemma {:induction false} ProcessingOrderMembers(terms: seq<NodeSelectorTerm>, x: NodeSelectorRequirement)
    ensures x in ProcessingOrder(terms) <==> x in FlattenExpressions(terms) || x in FlattenFields(terms)
    decreases |terms|
  {
    if terms != [] {
      ProcessingOrderMembers(terms[..|terms| - 1], x);
    }
  }

  /** Membership in the flattened lists, by term. */
  lemma FlattenMembers(terms: seq<NodeSelectorTerm>, x: NodeSelectorRequirement)
    ensures x in FlattenExpressions(terms) <==> exists k | 0 <= k < |terms| :: x in terms[k].matchExpressions
    ensures x in FlattenFields(terms) <==> exists k | 0 <= k < |terms| :: x in terms[k].matchFields
    ensures x in ProcessingOrder(terms) <==> x in FlattenExpressions(terms) || x in FlattenFields(terms)
  {
    FlattenExpressionsMembers(terms, x);
    FlattenFieldsMembers(terms, x);
    ProcessingOrderMembers(terms, x);
  }

  /** `TranslateRequirements` in terms of `AllTranslate` and `Translated`. */
  lemma TranslateRequirementsIsTranslated(lib: Library, exprs: seq<NodeSelectorRequirement>)
    ensures TranslateRequirements(lib, exprs).Ok? <==> AllTranslate(lib, exprs)
    ensures AllTranslate(lib, exprs) ==> TranslateRequirements(lib, exprs).value == Translated(lib, exprs)
  {
    TranslateRequirementsPointwise(lib, exprs);
    if AllTranslate(lib, exprs) {
      assert forall i | 0 <= i < |exprs| :: exprs[i] in exprs;
    }
  }

  /**
    For a selector with at least one term: the translation succeeds exactly
    when every requirement of every term translates and the field
    requirements, if any, parse; the label selector then holds the
    translated `matchExpressions` of all terms in term order and the field
    selector the translated `matchFields`. A translation failure is the
    error of the first failing requirement in visiting order, and any other
    failure is the field selector's parse error.
  */
  lemma {:induction false} SelectorsOfFlattened(lib: Library, ns: NodeSelector)
    requires ns.nodeSelectorTerms != []
    ensures AllTranslate(lib, ProcessingOrder(ns.nodeSelectorTerms)) <==>
              AllTranslate(lib, FlattenExpressions(ns.nodeSelectorTerms)) && AllTranslate(lib, FlattenFields(ns.nodeSelectorTerms))
    ensures var r := SelectorsOf(lib, Some(ns));
            var labels := FlattenExpressions(ns.nodeSelectorTerms);
            var fields := FlattenFields(ns.nodeSelectorTerms);
            AllTranslate(lib, labels) && AllTranslate(lib, fields) ==>
              && (r.Ok? <==> fields == [] || lib.fieldSelectorParses(Translated(lib, fields)))
              && (r.Ok? ==> r.value == Selectors(LabelRequirements(Translated(lib, labels)),
                                                 if fields == [] then FieldEverything else FieldRequirements(Translated(lib, fields))))
              && (r.Err? ==> r.error == InvalidFieldSelector)
    ensures var r := SelectorsOf(lib, Some(ns));
            var order := ProcessingOrder(ns.nodeSelectorTerms);
            !AllTranslate(lib, order) ==>
              exists k | 0 <= k < |order| ::
                && NodeLabelSelectorAsRequirement(lib, order[k]).Err?
                && r == Err(NodeLabelSelectorAsRequirement(lib, order[k]).error)
                && forall j | 0 <= j < k :: NodeLabelSelectorAsRequirement(lib, order[j]).Ok?
  {
    var terms := ns.nodeSelectorTerms;
    forall x ensures x in ProcessingOrder(terms) <==> x in FlattenExpressions(terms) || x in FlattenFields(terms) {
      FlattenMembers(terms, x);
    }
    TranslateTermsFlattens(lib, terms);
    TranslateRequirementsPointwise(lib, ProcessingOrder(terms));
    TranslateRequirementsIsTranslated(lib, ProcessingOrder(terms));
    TranslateRequirementsIsTranslated(lib, FlattenExpressions(terms));
    TranslateRequirementsIsTranslated(lib, FlattenFields(terms));
  }

  /** A property holds of every translated requirement exactly when it holds of the translation of every element. */
  lemma AllOfTranslated(lib: Library, exprs: seq<NodeSelectorRequirement>, holds: (Requirement, map<string, string>) -> bool, m: map<string, string>)
    requires AllTranslate(lib, exprs)
    ensures (forall i | 0 <= i < |Translated(lib, exprs)| :: holds(Translated(lib, exprs)[i], m)) <==>
            (forall x | x in exprs :: holds(NodeLabelSelectorAsRequirement(lib, x).value, m))
  {
    var rs := Translated(lib, exprs);
    if forall i | 0 <= i < |rs| :: holds(rs[i], m) {
      forall x | x in exprs ensures holds(NodeLabelSelectorAsRequirement(lib, x).value, m) {
        var i :| 0 <= i < |exprs| && exprs[i] == x;
        assert rs[i] == NodeLabelSelectorAsRequirement(lib, x).value;
      }
    }
    if forall x | x in exprs :: holds(NodeLabelSelectorAsRequirement(lib, x).value, m) {
      forall i | 0 <= i < |rs| ensures holds(rs[i], m) {
        assert exprs[i] in exprs;
      }
    }
  }

  /** Every requirement of a non-empty selector translates when the selector does. */
  lemma TranslatedParts(lib: Library, ns: NodeSelector, s: Selectors)
    requires ns.nodeSelectorTerms != []
    requires SelectorsOf(lib, Some(ns)) == Ok(s)
    ensures AllTranslate(lib, FlattenExpressions(ns.nodeSelectorTerms))
    ensures AllTranslate(lib, FlattenFields(ns.nodeSelectorTerms))
    ensures s.labelSelector == LabelRequirements(Translated(lib, FlattenExpressions(ns.nodeSelectorTerms)))
    ensures s.fieldSelector == if FlattenFields(ns.nodeSelectorTerms) == [] then FieldEverything
                               else FieldRequirements(Translated(lib, FlattenFields(ns.nodeSelectorTerms)))
  {
    TranslateTermsFlattens(lib, ns.nodeSelectorTerms);
    TranslateRequirementsIsTranslated(lib, FlattenExpressions(ns.nodeSelectorTerms));
    TranslateRequirementsIsTranslated(lib, FlattenFields(ns.nodeSelectorTerms));
    SelectorsOfFlattened(lib, ns);
  }

  /**
    Flattening makes the selectors a single conjunction: an object matches
    the label (field) selector exactly when it matches the translation of
    every `matchExpressions` (`matchFields`) requirement of every term, and
    not, as node affinity has it, of some one term.
  */
  lemma FlattenedSelectorIsConjunction(lib: Library, ns: NodeSelector, s: Selectors, labels: map<string, string>, fields: map<string, string>)
    requires SelectorsOf(lib, Some(ns)) == Ok(s)
    ensures LabelSelectorMatches(lib, s.labelSelector, labels) <==>
              forall k, e | 0 <= k < |ns.nodeSelectorTerms| && e in ns.nodeSelectorTerms[k].matchExpressions ::
                NodeLabelSelectorAsRequirement(lib, e).Ok? && lib.labelMatches(NodeLabelSelectorAsRequirement(lib, e).value, labels)
    ensures FieldSelectorMatches(lib, s.fieldSelector, fields) <==>
              forall k, e | 0 <= k < |ns.nodeSelectorTerms| && e in ns.nodeSelectorTerms[k].matchFields ::
                NodeLabelSelectorAsRequirement(lib, e).Ok? && lib.fieldMatches(NodeLabelSelectorAsRequirement(lib, e).value, fields)
  {
    var terms := ns.nodeSelectorTerms;
    if terms != [] {
      TranslatedParts(lib, ns, s);
      var fe, ff := FlattenExpressions(terms), FlattenFields(terms);
      AllOfTranslated(lib, fe, lib.labelMatches, labels);
      AllOfTranslated(lib, ff, lib.fieldMatches, fields);
      forall x { FlattenMembers(terms, x); }
    }
  }
}
