/**
  The budget resolver: which nodes a budget protects (through its pods and
  through the node affinity of the volumes its claims are bound to), how
  many granted disruptions overlap them, the status this yields, and the
  admission predicates read from that status.
*/
module Resolver {
  import opened Wrappers
  import opened Kube
  import opened Cluster
  import opened Affinity

  /** The spec of an ApplicationDisruptionBudget. */
  datatype ApplicationDisruptionBudgetSpec = ApplicationDisruptionBudgetSpec(
    podSelector: LabelSelectorSpec,
    pvcSelector: LabelSelectorSpec,
    maxDisruptions: int,
    healthURL: Option<string>)

  /** The answer of the health endpoint to a GET. */
  datatype HttpResponse = HttpResponse(statusCode: int, body: string)

  /** The node names of `pods`, `""` included for pods not yet scheduled. */
  function PodNodeNames(pods: seq<Pod>): set<string> {
    set p | p in pods :: p.nodeName
  }

  /** The names of `nodes`. */
  function NodeNames(nodes: seq<Node>): set<string> {
    set n | n in nodes :: n.name
  }

  /** The volume names of `claims`, in order. */
  function VolumeNames(claims: seq<PersistentVolumeClaim>): (names: seq<string>)
    ensures |names| == |claims|
    ensures forall i | 0 <= i < |claims| :: names[i] == claims[i].volumeName
  {
    seq(|claims|, i requires 0 <= i < |claims| => claims[i].volumeName)
  }

  /** A list option for a label selector: present only when the selector is not empty. */
  function LabelOption(s: LabelSelector): Option<LabelSelector> {
    if s.Empty() then None else Some(s)
  }

  /** A list option for a field selector: present only when the selector is not empty. */
  function FieldOption(s: FieldSelector): Option<FieldSelector> {
    if s.Empty() then None else Some(s)
  }

  /**
    The nodes the pod selector reaches: none when the selector does not
    parse (with its error) or is empty; otherwise the node name of every
    pod of the namespace that the selector matches.
  */
  function PodSelectorNodes(lib: Library, c: Snapshot, namespace: string, selector: LabelSelectorSpec): Result<set<string>, Error> {
    var s :- LabelSelectorAsSelector(lib, selector);
    if s.Empty() then Ok({})
    else
      var pods :- c.PodList(lib, namespace, s);
      Ok(PodNodeNames(pods))
  }

  /**
    The contribution of volume `pvName`: nothing when its required node
    affinity is absent or translates to two empty selectors; otherwise the
    names of the nodes its non-empty selectors match.
  */
  function VolumeNodes(lib: Library, c: Snapshot, pvName: string): Result<set<string>, Error> {
    var pv :- c.VolumeGet(pvName);
    match pv.requiredNodeAffinity
    case None => Ok({})
    case Some(ns) =>
      var s :- SelectorsOf(lib, Some(ns));
      if s.labelSelector.Empty() && s.fieldSelector.Empty() then Ok({})
      else
        var nodes :- c.NodeList(lib, pvName, LabelOption(s.labelSelector), FieldOption(s.fieldSelector));
        Ok(NodeNames(nodes))
  }

  /** The union of the contributions `f` of `names`, visited in order; the first failure aborts. */
  function UnionOver(f: string -> Result<set<string>, Error>, names: seq<string>): Result<set<string>, Error>
    decreases |names|
  {
    if names == [] then Ok({})
    else
      var acc :- UnionOver(f, names[..|names| - 1]);
      var more :- f(names[|names| - 1]);
      Ok(acc + more)
  }

  /** The contribution of each volume, as a function of its name. */
  function VolumeContribution(lib: Library, c: Snapshot): string -> Result<set<string>, Error> {
    (pvName: string) => VolumeNodes(lib, c, pvName)
  }

  /** The contributions of the volumes `names`, visited in order; the first failure aborts. */
  function VolumesNodes(lib: Library, c: Snapshot, names: seq<string>): Result<set<string>, Error> {
    UnionOver(VolumeContribution(lib, c), names)
  }

  /** The nodes the claim selector reaches through the volumes bound to the claims it matches. */
  function PVCSelectorNodes(lib: Library, c: Snapshot, namespace: string, selector: LabelSelectorSpec): Result<set<string>, Error> {
    var s :- LabelSelectorAsSelector(lib, selector);
    var claims :- c.ClaimList(lib, namespace, s);
    VolumesNodes(lib, c, VolumeNames(claims))
  }

  /** The nodes a budget protects: through its pods, then through its claims. */
  function ImpactedNodes(lib: Library, c: Snapshot, namespace: string, spec: ApplicationDisruptionBudgetSpec): Result<set<string>, Error> {
    var fromPods :- PodSelectorNodes(lib, c, namespace, spec.podSelector);
    var fromClaims :- PVCSelectorNodes(lib, c, namespace, spec.pvcSelector);
    Ok(fromPods + fromClaims)
  }

  /**
    The granted disruptions of `nds` whose impacted nodes meet `selected`,
    counted in list order; resolving a granted disruption may fail, which aborts.
  */
  function CountOverlapping(c: Snapshot, selected: set<string>, nds: seq<NodeDisruption>): Result<nat, Error>
    decreases |nds|
  {
    if nds == [] then Ok(0)
    else
      var n :- CountOverlapping(c, selected, nds[..|nds| - 1]);
      var nd := nds[|nds| - 1];
      if nd.state != Granted then Ok(n)
      else
        var d :- c.DisruptionGet(nd);
        Ok(if |selected * d.impactedNodes| > 0 then n + 1 else n)
  }

  /** The number of granted disruptions that overlap the budget's nodes. */
  function DisruptionCount(lib: Library, c: Snapshot, namespace: string, spec: ApplicationDisruptionBudgetSpec): Result<nat, Error> {
    var selected :- ImpactedNodes(lib, c, namespace, spec);
    var nds :- c.NodeDisruptionList();
    CountOverlapping(c, selected, nds)
  }

  /** The positions of the granted disruptions in `nds`. */
  function GrantedIndices(nds: seq<NodeDisruption>): set<nat> {
    set i: nat | i < |nds| && nds[i].state == Granted
  }

  /** The positions of the granted disruptions in `nds` that impact a node of `selected`. */
  function OverlappingIndices(selected: set<string>, nds: seq<NodeDisruption>): set<nat> {
    set i: nat | i < |nds| && nds[i].state == Granted && selected * nds[i].impactedNodes != {}
  }

  /** Without duplicates. */
  predicate NoDuplicates(s: seq<string>) {
    forall i, j | 0 <= i < j < |s| :: s[i] != s[j]
  }

  /** `NewNodeSetFromStringList`: the set of a list's elements. */
  function NodeSetFromStringList(nodes: seq<string>): set<string> {
    set n | n in nodes
  }

  // ---------------------------------------------------------------------------
  // Properties of the specification functions

  /**
    The pod path fails exactly when the selector does not parse or, for a
    non-empty selector, listing pods fails; an empty selector reaches no
    node; otherwise the result is exactly the node names of the matching
    pods of the namespace, `""` included for unscheduled pods.
  */
  lemma PodSelectorNodesMembers(lib: Library, c: Snapshot, namespace: string, selector: LabelSelectorSpec)
    ensures PodSelectorNodes(lib, c, namespace, selector).Err? <==>
              || LabelSelectorAsSelector(lib, selector).Err?
              || (!LabelSelectorAsSelector(lib, selector).value.Empty() && ListPods in c.failing)
    ensures LabelSelectorAsSelector(lib, selector).Ok? && LabelSelectorAsSelector(lib, selector).value.Empty() ==>
              PodSelectorNodes(lib, c, namespace, selector) == Ok({})
    ensures selector == EmptyLabelSelectorSpec ==> PodSelectorNodes(lib, c, namespace, selector) == Ok({})
    ensures LabelSelectorAsSelector(lib, selector).Ok? && !LabelSelectorAsSelector(lib, selector).value.Empty() &&
            PodSelectorNodes(lib, c, namespace, selector).Ok? ==>
              forall x :: x in PodSelectorNodes(lib, c, namespace, selector).value <==>
                exists p | p in c.pods :: && p.namespace == namespace
                                         && LabelSelectorMatches(lib, LabelSelectorAsSelector(lib, selector).value, p.labels)
                                         && p.nodeName == x
  {
    var s := LabelSelectorAsSelector(lib, selector);
    if s.Ok? && !s.value.Empty() && ListPods !in c.failing {
      var keep := (p: Pod) => p.namespace == namespace && LabelSelectorMatches(lib, s.value, p.labels);
      var pods := Filter(c.pods, keep);
      assert c.PodList(lib, namespace, s.value) == Ok(pods);
      forall x ensures x in PodNodeNames(pods) <==> exists p | p in c.pods :: keep(p) && p.nodeName == x {
        if x in PodNodeNames(pods) {
          var p :| p in pods && p.nodeName == x;
          var i :| 0 <= i < |pods| && pods[i] == p;
          assert p in c.pods && keep(p);
        }
        if exists p | p in c.pods :: keep(p) && p.nodeName == x {
          var p :| p in c.pods && keep(p) && p.nodeName == x;
          var i :| 0 <= i < |c.pods| && c.pods[i] == p;
          assert p in pods;
        }
      }
    }
  }

  /**
    A volume whose required affinity translates to a selector pair that is
    not both empty fails exactly when listing nodes for it fails, and
    otherwise contributes exactly the names of the nodes its non-empty
    selectors match.
  */
  lemma VolumeNodesListed(lib: Library, c: Snapshot, pvName: string, ns: NodeSelector, s: Selectors)
    requires c.VolumeGet(pvName) == Ok(PersistentVolume(Some(ns)))
    requires SelectorsOf(lib, Some(ns)) == Ok(s)
    requires !(s.labelSelector.Empty() && s.fieldSelector.Empty())
    ensures VolumeNodes(lib, c, pvName).Err? <==> ListNodes(pvName) in c.failing
    ensures VolumeNodes(lib, c, pvName).Ok? ==>
              forall x :: x in VolumeNodes(lib, c, pvName).value <==>
                exists n | n in c.nodes :: && n.name == x
                                           && (s.labelSelector.Empty() || LabelSelectorMatches(lib, s.labelSelector, n.labels))
                                           && (s.fieldSelector.Empty() || FieldSelectorMatches(lib, s.fieldSelector, n.fields))
  {
    if ListNodes(pvName) !in c.failing {
      var ls, fs := s.labelSelector, s.fieldSelector;
      var keep := (n: Node) =>
        (LabelOption(ls).None? || LabelSelectorMatches(lib, LabelOption(ls).value, n.labels)) &&
        (FieldOption(fs).None? || FieldSelectorMatches(lib, FieldOption(fs).value, n.fields));
      var nodes := Filter(c.nodes, keep);
      assert c.NodeList(lib, pvName, LabelOption(ls), FieldOption(fs)) == Ok(nodes);
      assert VolumeNodes(lib, c, pvName) == Ok(NodeNames(nodes));
      forall x ensures x in NodeNames(nodes) <==> exists n | n in c.nodes :: keep(n) && n.name == x {
        if x in NodeNames(nodes) {
          var n :| n in nodes && n.name == x;
          FilterMembers(c.nodes, keep, n);
        }
        if exists n | n in c.nodes :: keep(n) && n.name == x {
          var n :| n in c.nodes && keep(n) && n.name == x;
          FilterMembers(c.nodes, keep, n);
        }
      }
    }
  }

  /**
    A volume contributes nothing when its required affinity is absent,
    when it has no term at all, or when its selectors are both empty; a
    lookup or translation failure is the volume's error; otherwise it is
    listed as `VolumeNodesListed` states.
  */
  lemma VolumeNodesCases(lib: Library, c: Snapshot, pvName: string)
    ensures c.VolumeGet(pvName).Err? ==> VolumeNodes(lib, c, pvName) == Err(c.VolumeGet(pvName).error)
    ensures c.VolumeGet(pvName).Ok? && c.VolumeGet(pvName).value.requiredNodeAffinity.None? ==>
              VolumeNodes(lib, c, pvName) == Ok({})
    ensures c.VolumeGet(pvName).Ok? && c.VolumeGet(pvName).value.requiredNodeAffinity == Some(NodeSelector([])) ==>
              VolumeNodes(lib, c, pvName) == Ok({})
    ensures c.VolumeGet(pvName).Ok? && c.VolumeGet(pvName).value.requiredNodeAffinity.Some? ==>
              var s := SelectorsOf(lib, c.VolumeGet(pvName).value.requiredNodeAffinity);
              && (s.Err? ==> VolumeNodes(lib, c, pvName) == Err(s.error))
              && (s.Ok? && s.value.labelSelector.Empty() && s.value.fieldSelector.Empty() ==> VolumeNodes(lib, c, pvName) == Ok({}))
  {
  }

  /** Every name of `names` yields a contribution. */
  predicate AllResolve(f: string -> Result<set<string>, Error>, names: seq<string>) {
    forall i | 0 <= i < |names| :: f(names[i]).Ok?
  }

  /** Some name of `names` yields a contribution holding `x`. */
  predicate SomeContributes(f: string -> Result<set<string>, Error>, names: seq<string>, x: string) {
    exists i | 0 <= i < |names| :: f(names[i]).Ok? && x in f(names[i]).value
  }

  /** Name `k` of `names` is the first whose contribution fails, with error `e`. */
  predicate FirstFailure(f: string -> Result<set<string>, Error>, names: seq<string>, k: int, e: Error) {
    && 0 <= k < |names|
    && f(names[k]) == Err(e)
    && forall j | 0 <= j < k :: f(names[j]).Ok?
  }

  /** All names yield a contribution exactly when all but the last do and the last does too. */
  lemma AllResolvePrefix(f: string -> Result<set<string>, Error>, names: seq<string>)
    requires names != []
    ensures AllResolve(f, names) <==>
              AllResolve(f, names[..|names| - 1]) && f(names[|names| - 1]).Ok?
  {
    var n := |names| - 1;
    assert forall i | 0 <= i < n :: names[..n][i] == names[i];
  }

  /** A name of the list contributes `x` exactly when one before the last does, or the last does. */
  lemma SomeContributesPrefix(f: string -> Result<set<string>, Error>, names: seq<string>, x: string)
    requires names != []
    ensures SomeContributes(f, names, x) <==>
              || SomeContributes(f, names[..|names| - 1], x)
              || (f(names[|names| - 1]).Ok? && x in f(names[|names| - 1]).value)
  {
    var n := |names| - 1;
    var init := names[..n];
    if SomeContributes(f, names, x) {
      var i :| 0 <= i < |names| && f(names[i]).Ok? && x in f(names[i]).value;
      if i < n {
        assert init[i] == names[i];
      }
    }
    if SomeContributes(f, init, x) {
      var i :| 0 <= i < |init| && f(init[i]).Ok? && x in f(init[i]).value;
      assert names[i] == init[i];
    }
  }

  /** The first failure of a prefix is the first failure of the list. */
  lemma FirstFailurePrefix(f: string -> Result<set<string>, Error>, names: seq<string>, k: int, e: Error)
    requires names != []
    requires FirstFailure(f, names[..|names| - 1], k, e)
    ensures FirstFailure(f, names, k, e)
  {
    var n := |names| - 1;
    assert forall j | 0 <= j <= k :: names[..n][j] == names[j];
  }

  /**
    The union succeeds exactly when every name yields a contribution,
    reports the first failure otherwise, and holds exactly the elements of
    the contributions.
  */
  lemma {:induction false} UnionOverMembers(f: string -> Result<set<string>, Error>, names: seq<string>)
    ensures UnionOver(f, names).Ok? <==> AllResolve(f, names)
    ensures UnionOver(f, names).Ok? ==>
              forall x :: x in UnionOver(f, names).value <==> SomeContributes(f, names, x)
    ensures UnionOver(f, names).Err? ==>
              exists k :: FirstFailure(f, names, k, UnionOver(f, names).error)
    decreases |names|
  {
    if names != [] {
      var n := |names| - 1;
      var init := names[..n];
      UnionOverMembers(f, init);
      AllResolvePrefix(f, names);
      match UnionOver(f, init)
      case Err(e) =>
        assert UnionOver(f, names) == Err(e);
        var k :| FirstFailure(f, init, k, e);
        FirstFailurePrefix(f, names, k, e);
      case Ok(acc) =>
        match f(names[n])
        case Err(e) =>
          assert UnionOver(f, names) == Err(e);
          assert forall j | 0 <= j < n :: init[j] == names[j];
          assert FirstFailure(f, names, n, e);
        case Ok(more) =>
          assert UnionOver(f, names) == Ok(acc + more);
          forall x ensures x in acc + more <==> SomeContributes(f, names, x) {
            SomeContributesPrefix(f, names, x);
          }
    }
  }

  /** The volume names of `claims` contribute a node exactly when the volume name of one of the claims does. */
  lemma ClaimVolumesContribute(f: string -> Result<set<string>, Error>, claims: seq<PersistentVolumeClaim>)
    ensures forall x :: SomeContributes(f, VolumeNames(claims), x) <==>
              exists pvc | pvc in claims :: f(pvc.volumeName).Ok? && x in f(pvc.volumeName).value
    ensures AllResolve(f, VolumeNames(claims)) ==> forall pvc | pvc in claims :: f(pvc.volumeName).Ok?
  {
    var names := VolumeNames(claims);
    forall x | exists pvc | pvc in claims :: f(pvc.volumeName).Ok? && x in f(pvc.volumeName).value
      ensures SomeContributes(f, names, x)
    {
      var pvc :| pvc in claims && f(pvc.volumeName).Ok? && x in f(pvc.volumeName).value;
      var i :| 0 <= i < |claims| && claims[i] == pvc;
      assert names[i] == pvc.volumeName;
    }
    forall x | SomeContributes(f, names, x)
      ensures exists pvc | pvc in claims :: f(pvc.volumeName).Ok? && x in f(pvc.volumeName).value
    {
      var i :| 0 <= i < |names| && f(names[i]).Ok? && x in f(names[i]).value;
      assert claims[i] in claims;
    }
    if AllResolve(f, names) {
      forall pvc | pvc in claims
        ensures f(pvc.volumeName).Ok?
      {
        var i :| 0 <= i < |claims| && claims[i] == pvc;
        assert names[i] == pvc.volumeName;
      }
    }
  }

  /**
    The claim path has no empty-selector guard. It fails when the selector
    does not parse, when listing claims fails, or when a bound volume fails
    to resolve; otherwise a node is reached exactly when some claim of the
    namespace that the selector matches is bound to a volume contributing
    it; with an empty selector that is every claim of the namespace.
  */
  lemma PVCSelectorNodesMembers(lib: Library, c: Snapshot, namespace: string, selector: LabelSelectorSpec)
    ensures LabelSelectorAsSelector(lib, selector).Err? ==>
              PVCSelectorNodes(lib, c, namespace, selector) == Err(InvalidLabelSelector)
    ensures LabelSelectorAsSelector(lib, selector).Ok? && ListPersistentVolumeClaims in c.failing ==>
              PVCSelectorNodes(lib, c, namespace, selector) == Err(StoreFailure(ListPersistentVolumeClaims))
    ensures LabelSelectorAsSelector(lib, selector).Ok? && PVCSelectorNodes(lib, c, namespace, selector).Ok? ==>
              forall x :: x in PVCSelectorNodes(lib, c, namespace, selector).value <==>
                exists pvc | pvc in c.claims ::
                  && pvc.namespace == namespace
                  && LabelSelectorMatches(lib, LabelSelectorAsSelector(lib, selector).value, pvc.labels)
                  && VolumeNodes(lib, c, pvc.volumeName).Ok?
                  && x in VolumeNodes(lib, c, pvc.volumeName).value
    ensures LabelSelectorAsSelector(lib, selector).Ok? && PVCSelectorNodes(lib, c, namespace, selector).Ok? ==>
              forall pvc | && pvc in c.claims && pvc.namespace == namespace
                           && LabelSelectorMatches(lib, LabelSelectorAsSelector(lib, selector).value, pvc.labels) ::
                VolumeNodes(lib, c, pvc.volumeName).Ok? &&
                VolumeNodes(lib, c, pvc.volumeName).value <= PVCSelectorNodes(lib, c, namespace, selector).value
    ensures selector == EmptyLabelSelectorSpec && PVCSelectorNodes(lib, c, namespace, selector).Ok? ==>
              forall pvc | pvc in c.claims && pvc.namespace == namespace ::
                VolumeNodes(lib, c, pvc.volumeName).Ok? &&
                VolumeNodes(lib, c, pvc.volumeName).value <= PVCSelectorNodes(lib, c, namespace, selector).value
  {
    var s := LabelSelectorAsSelector(lib, selector);
    if s.Ok? && ListPersistentVolumeClaims !in c.failing {
      var keep := (pvc: PersistentVolumeClaim) => pvc.namespace == namespace && LabelSelectorMatches(lib, s.value, pvc.labels);
      var claims := Filter(c.claims, keep);
      assert c.ClaimList(lib, namespace, s.value) == Ok(claims);
      var names := VolumeNames(claims);
      var f := VolumeContribution(lib, c);
      assert forall n :: f(n) == VolumeNodes(lib, c, n);
      UnionOverMembers(f, names);
      ClaimVolumesContribute(f, claims);
      forall pvc ensures pvc in claims <==> pvc in c.claims && keep(pvc) {
        FilterMembers(c.claims, keep, pvc);
      }
      if VolumesNodes(lib, c, names).Ok? && selector == EmptyLabelSelectorSpec {
        forall pvc | pvc in c.claims && pvc.namespace == namespace
          ensures VolumeNodes(lib, c, pvc.volumeName).Ok? && VolumeNodes(lib, c, pvc.volumeName).value <= VolumesNodes(lib, c, names).value
        {
          assert keep(pvc);
        }
      }
    }
  }

  /**
    A claim the selector matches that is not yet bound to a volume makes the
    claim path fail: fetching the volume with an empty name is an error.
  */
  lemma UnboundClaimFails(lib: Library, c: Snapshot, namespace: string, selector: LabelSelectorSpec, pvc: PersistentVolumeClaim)
    requires LabelSelectorAsSelector(lib, selector).Ok?
    requires pvc in c.claims && pvc.namespace == namespace && pvc.volumeName == ""
    requires LabelSelectorMatches(lib, LabelSelectorAsSelector(lib, selector).value, pvc.labels)
    ensures PVCSelectorNodes(lib, c, namespace, selector).Err?
  {
    PVCSelectorNodesMembers(lib, c, namespace, selector);
    assert VolumeNodes(lib, c, "") == Err(EmptyName);
  }

  /** One more disruption adds its position to the overlapping positions exactly when it is granted and overlaps. */
  lemma OverlappingIndicesStep(selected: set<string>, nds: seq<NodeDisruption>)
    requires nds != []
    ensures var n := |nds| - 1;
            var nd := nds[n];
            && OverlappingIndices(selected, nds) ==
                 OverlappingIndices(selected, nds[..n]) + (if nd.state == Granted && selected * nd.impactedNodes != {} then {n} else {})
            && n !in OverlappingIndices(selected, nds[..n])
            && GrantedIndices(nds) == GrantedIndices(nds[..n]) + (if nd.state == Granted then {n} else {})
            && n !in GrantedIndices(nds[..n])
  {
  }

  /** Counting succeeds exactly when every granted disruption resolves. */
  lemma {:induction false} CountOverlappingSucceeds(c: Snapshot, selected: set<string>, nds: seq<NodeDisruption>)
    ensures CountOverlapping(c, selected, nds).Ok? <==>
              forall i | 0 <= i < |nds| && nds[i].state == Granted :: c.DisruptionGet(nds[i]).Ok?
    decreases |nds|
  {
    if nds != [] {
      var n := |nds| - 1;
      CountOverlappingSucceeds(c, selected, nds[..n]);
      assert forall i | 0 <= i < n :: nds[..n][i] == nds[i];
    }
  }

  /** A successful count is the number of overlapping granted positions. */
  lemma {:induction false} CountOverlappingValue(c: Snapshot, selected: set<string>, nds: seq<NodeDisruption>)
    ensures CountOverlapping(c, selected, nds).Ok? ==>
              CountOverlapping(c, selected, nds).value == |OverlappingIndices(selected, nds)|
    decreases |nds|
  {
    if nds != [] {
      var n := |nds| - 1;
      var nd := nds[n];
      CountOverlappingValue(c, selected, nds[..n]);
      OverlappingIndicesStep(selected, nds);
      if CountOverlapping(c, selected, nds).Ok? && nd.state == Granted && selected * nd.impactedNodes != {} {
        var a := OverlappingIndices(selected, nds[..n]);
        assert |a + {n}| == |a| + 1;
      }
    }
  }

  /**
    Counting succeeds exactly when every granted disruption resolves; the
    count is then the number of granted disruptions that impact a selected
    node, each counted once however many nodes overlap, and is at most the
    number of granted disruptions.
  */
  lemma CountOverlappingIsCardinality(c: Snapshot, selected: set<string>, nds: seq<NodeDisruption>)
    ensures CountOverlapping(c, selected, nds).Ok? <==>
              forall i | 0 <= i < |nds| && nds[i].state == Granted :: c.DisruptionGet(nds[i]).Ok?
    ensures CountOverlapping(c, selected, nds).Ok? ==>
              && CountOverlapping(c, selected, nds).value == |OverlappingIndices(selected, nds)|
              && OverlappingIndices(selected, nds) <= GrantedIndices(nds)
              && CountOverlapping(c, selected, nds).value <= |GrantedIndices(nds)|
  {
    CountOverlappingSucceeds(c, selected, nds);
    CountOverlappingValue(c, selected, nds);
    SubsetCardinality(OverlappingIndices(selected, nds), GrantedIndices(nds));
  }

  /** Once the nodes and the disruption list are known, the disruption count is the overlap count over that list. */
  lemma DisruptionCountOver(lib: Library, c: Snapshot, namespace: string, spec: ApplicationDisruptionBudgetSpec,
                            selected: set<string>, nds: seq<NodeDisruption>)
    requires ImpactedNodes(lib, c, namespace, spec) == Ok(selected)
    requires c.NodeDisruptionList() == Ok(nds)
    ensures DisruptionCount(lib, c, namespace, spec) == CountOverlapping(c, selected, nds)
  {
  }

  /** Once the selector and the claims are known, the claim path is the union over their volumes. */
  lemma PVCSelectorNodesOver(lib: Library, c: Snapshot, namespace: string, selector: LabelSelectorSpec,
                             s: LabelSelector, claims: seq<PersistentVolumeClaim>)
    requires LabelSelectorAsSelector(lib, selector) == Ok(s)
    requires c.ClaimList(lib, namespace, s) == Ok(claims)
    ensures PVCSelectorNodes(lib, c, namespace, selector) == VolumesNodes(lib, c, VolumeNames(claims))
  {
  }

  /** The volume names of one more claim. */
  lemma VolumeNamesSnoc(claims: seq<PersistentVolumeClaim>, k: nat)
    requires k < |claims|
    ensures VolumeNames(claims[..k + 1]) == VolumeNames(claims[..k]) + [claims[k].volumeName]
  {
    assert VolumeNames(claims[..k + 1])[..k] == VolumeNames(claims[..k]);
  }

  /** The node names of one more pod. */
  lemma PodNodeNamesSnoc(pods: seq<Pod>, k: nat)
    requires k < |pods|
    ensures PodNodeNames(pods[..k + 1]) == PodNodeNames(pods[..k]) + {pods[k].nodeName}
  {
    assert pods[..k + 1] == pods[..k] + [pods[k]];
  }

  /** The names of one more node. */
  lemma NodeNamesSnoc(nodes: seq<Node>, k: nat)
    requires k < |nodes|
    ensures NodeNames(nodes[..k + 1]) == NodeNames(nodes[..k]) + {nodes[k].name}
  {
    assert nodes[..k + 1] == nodes[..k] + [nodes[k]];
  }

  /** Visiting one more name adds its contribution, or fails with its error. */
  lemma UnionOverStep(f: string -> Result<set<string>, Error>, names: seq<string>, k: nat)
    requires k < |names|
    requires UnionOver(f, names[..k]).Ok?
    ensures f(names[k]).Err? ==> UnionOver(f, names[..k + 1]) == Err(f(names[k]).error)
    ensures f(names[k]).Ok? ==> UnionOver(f, names[..k + 1]) == Ok(UnionOver(f, names[..k]).value + f(names[k]).value)
  {
    assert names[..k + 1][..k] == names[..k];
  }

  /** Counting one more disruption: skipped unless granted; otherwise its resolution fails or it adds one when it overlaps. */
  lemma CountOverlappingStep(c: Snapshot, selected: set<string>, nds: seq<NodeDisruption>, k: nat)
    requires k < |nds|
    requires CountOverlapping(c, selected, nds[..k]).Ok?
    ensures var n := CountOverlapping(c, selected, nds[..k]).value;
            var nd := nds[k];
            && (nd.state != Granted ==> CountOverlapping(c, selected, nds[..k + 1]) == Ok(n))
            && (nd.state == Granted && c.DisruptionGet(nd).Err? ==>
                  CountOverlapping(c, selected, nds[..k + 1]) == Err(c.DisruptionGet(nd).error))
            && (nd.state == Granted && c.DisruptionGet(nd).Ok? ==>
                  CountOverlapping(c, selected, nds[..k + 1]) ==
                    Ok(if |selected * c.DisruptionGet(nd).value.impactedNodes| > 0 then n + 1 else n))
  {
    assert nds[..k + 1][..k] == nds[..k];
  }

  /** A subset is no larger than its superset. */
  lemma SubsetCardinality(a: set<nat>, b: set<nat>)
    requires a <= b
    ensures |a| <= |b|
  {
    assert b == a + (b - a);
  }

  // ---------------------------------------------------------------------------
  // Operations

  /**
    The list `Sync` builds from the resolved node set (`Set.Do` appending
    each element): each element exactly once, in an unspecified order.
  */
  method NodeSetToStringList(s: set<string>) returns (nodes: seq<string>)
    ensures |nodes| == |s|
    ensures forall x :: x in nodes <==> x in s
    ensures NoDuplicates(nodes)
    ensures NodeSetFromStringList(nodes) == s
  {
    nodes := [];
    var rest := s;
    while rest != {}
      invariant rest <= s
      invariant forall x :: x in nodes <==> x in s && x !in rest
      invariant NoDuplicates(nodes)
      invariant |nodes| + |rest| == |s|
      decreases |rest|
    {
      var x :| x in rest;
      nodes := nodes + [x];
      rest := rest - {x};
    }
  }

  /** An ApplicationDisruptionBudget: identity and spec, and the status `Sync` overwrites. */
  class ApplicationDisruptionBudget {
    const namespace: string
    const name: string
    const spec: ApplicationDisruptionBudgetSpec
    var watchedNodes: seq<string>
    var currentDisruptions: int
    var disruptionsAllowed: int

    constructor (namespace: string, name: string, spec: ApplicationDisruptionBudgetSpec)
      ensures this.namespace == namespace && this.name == name && this.spec == spec
      ensures watchedNodes == [] && currentDisruptions == 0 && disruptionsAllowed == 0
    {
      this.namespace := namespace;
      this.name := name;
      this.spec := spec;
      watchedNodes := [];
      currentDisruptions := 0;
      disruptionsAllowed := 0;
    }
  }

  /** The resolver of one budget against one cluster snapshot. */
  class ApplicationDisruptionBudgetResolver {
    const budget: ApplicationDisruptionBudget
    const client: Snapshot
    const lib: Library

    constructor (budget: ApplicationDisruptionBudget, client: Snapshot, lib: Library)
      ensures this.budget == budget && this.client == client && this.lib == lib
    {
      this.budget := budget;
      this.client := client;
      this.lib := lib;
    }

    /** The node names of the pods the budget's pod selector matches in its namespace. */
    method ResolveFromPodSelector() returns (r: Result<set<string>, Error>)
      ensures r == PodSelectorNodes(lib, client, budget.namespace, budget.spec.podSelector)
    {
      var selector := LabelSelectorAsSelector(lib, budget.spec.podSelector);
      if selector.Err? || selector.value.Empty() {
        return if selector.Err? then Err(selector.error) else Ok({});
      }
      var pods := client.PodList(lib, budget.namespace, selector.value);
      if pods.Err? {
        return Err(pods.error);
      }
      var items := pods.value;
      var nodeNames: set<string> := {};
      for k := 0 to |items|
        invariant nodeNames == PodNodeNames(items[..k])
      {
        PodNodeNamesSnoc(items, k);
        nodeNames := nodeNames + {items[k].nodeName};
      }
      assert items[..|items|] == items;
      return Ok(nodeNames);
    }

    /**
      The names of the nodes reached through the volumes bound to the
      claims the budget's claim selector matches in its namespace.
    */
    method ResolveFromPVCSelector() returns (r: Result<set<string>, Error>)
      ensures r == PVCSelectorNodes(lib, client, budget.namespace, budget.spec.pvcSelector)
    {
      var selector := LabelSelectorAsSelector(lib, budget.spec.pvcSelector);
      if selector.Err? {
        return Err(selector.error);
      }
      var claims := client.ClaimList(lib, budget.namespace, selector.value);
      if claims.Err? {
        return Err(claims.error);
      }
      var items := claims.value;
      var pvsToFetch: seq<string> := [];
      for k := 0 to |items|
        invariant pvsToFetch == VolumeNames(items[..k])
      {
        VolumeNamesSnoc(items, k);
        pvsToFetch := pvsToFetch + [items[k].volumeName];
      }
      assert items[..|items|] == items;
      PVCSelectorNodesOver(lib, client, budget.namespace, budget.spec.pvcSelector, selector.value, items);
      r := ResolveVolumes(pvsToFetch);
    }

    /** The contributions of the volumes `pvsToFetch`, fetched in order; the first failure aborts. */
    method ResolveVolumes(pvsToFetch: seq<string>) returns (r: Result<set<string>, Error>)
      ensures r == VolumesNodes(lib, client, pvsToFetch)
    {
      ghost var f := VolumeContribution(lib, client);
      var nodeNames: set<string> := {};
      for k := 0 to |pvsToFetch|
        invariant UnionOver(f, pvsToFetch[..k]) == Ok(nodeNames)
      {
        var contribution := ResolveVolume(pvsToFetch[k]);
        assert contribution == f(pvsToFetch[k]);
        UnionOverStep(f, pvsToFetch, k);
        if contribution.Err? {
          UnionOverAbort(f, pvsToFetch, k + 1);
          assert pvsToFetch[..|pvsToFetch|] == pvsToFetch;
          return Err(contribution.error);
        }
        nodeNames := nodeNames + contribution.value;
      }
      assert pvsToFetch[..|pvsToFetch|] == pvsToFetch;
      return Ok(nodeNames);
    }

    /**
      The body of the volume loop of `ResolveFromPVCSelector` for one
      volume: fetch it, skip it when its required affinity is absent or
      both selectors are empty, otherwise list the nodes its non-empty
      selectors match and collect their names.
    */
    method ResolveVolume(pvName: string) returns (r: Result<set<string>, Error>)
      ensures r == VolumeNodes(lib, client, pvName)
    {
      var pv := client.VolumeGet(pvName);
      if pv.Err? {
        return Err(pv.error);
      }
      var nodeSelector := pv.value.requiredNodeAffinity;
      if nodeSelector.None? {
        return Ok({});
      }
      var selectors := NodeSelectorAsSelector(lib, nodeSelector);
      if selectors.Err? {
        return Err(selectors.error);
      }
      var labelSelector, fieldSelector := selectors.value.labelSelector, selectors.value.fieldSelector;
      if labelSelector.Empty() && fieldSelector.Empty() {
        return Ok({});
      }
      var labelOption: Option<LabelSelector> := None;
      var fieldOption: Option<FieldSelector> := None;
      if !labelSelector.Empty() {
        labelOption := Some(labelSelector);
      }
      if !fieldSelector.Empty() {
        fieldOption := Some(fieldSelector);
      }
      var nodes := client.NodeList(lib, pvName, labelOption, fieldOption);
      if nodes.Err? {
        return Err(nodes.error);
      }
      var items := nodes.value;
      var nodeNames: set<string> := {};
      for k := 0 to |items|
        invariant nodeNames == NodeNames(items[..k])
      {
        NodeNamesSnoc(items, k);
        nodeNames := nodeNames + {items[k].name};
      }
      assert items[..|items|] == items;
      return Ok(nodeNames);
    }

    /**
      The union of the pod-derived and the claim-derived node sets; the pod
      path's error, else the claim path's error, aborts.
    */
    method ResolveNodes() returns (r: Result<set<string>, Error>)
      ensures r == ImpactedNodes(lib, client, budget.namespace, budget.spec)
      ensures r.Ok? <==> PodSelectorNodes(lib, client, budget.namespace, budget.spec.podSelector).Ok? &&
                         PVCSelectorNodes(lib, client, budget.namespace, budget.spec.pvcSelector).Ok?
      ensures r.Ok? ==> r.value == PodSelectorNodes(lib, client, budget.namespace, budget.spec.podSelector).value +
                                   PVCSelectorNodes(lib, client, budget.namespace, budget.spec.pvcSelector).value
    {
      var nodesFromPods := ResolveFromPodSelector();
      if nodesFromPods.Err? {
        return Err(nodesFromPods.error);
      }
      var nodesFromPVCs := ResolveFromPVCSelector();
      if nodesFromPVCs.Err? {
        return Err(nodesFromPVCs.error);
      }
      return Ok(nodesFromPods.value + nodesFromPVCs.value);
    }

    /** The number of granted disruptions whose impacted nodes meet the budget's nodes. */
    method ResolveDisruption() returns (r: Result<nat, Error>)
      ensures r == DisruptionCount(lib, client, budget.namespace, budget.spec)
    {
      var selectedNodes := ResolveNodes();
      if selectedNodes.Err? {
        return Err(selectedNodes.error);
      }
      var nodeDisruptions := client.NodeDisruptionList();
      if nodeDisruptions.Err? {
        return Err(nodeDisruptions.error);
      }
      DisruptionCountOver(lib, client, budget.namespace, budget.spec, selectedNodes.value, nodeDisruptions.value);
      r := CountGrantedOverlaps(selectedNodes.value, nodeDisruptions.value);
    }

    /**
      The loop of `ResolveDisruption`: skip disruptions that are not
      granted, resolve each granted one (a failure aborts) and count those
      whose impacted nodes meet `selected`.
    */
    method CountGrantedOverlaps(selected: set<string>, items: seq<NodeDisruption>) returns (r: Result<nat, Error>)
      ensures r == CountOverlapping(client, selected, items)
    {
      var disruptions: nat := 0;
      for k := 0 to |items|
        invariant CountOverlapping(client, selected, items[..k]) == Ok(disruptions)
      {
        var nd := items[k];
        CountOverlappingStep(client, selected, items, k);
        if nd.state == Granted {
          var disruption := client.DisruptionGet(nd);
          if disruption.Err? {
            CountOverlappingAbort(client, selected, items, k + 1);
            assert items[..|items|] == items;
            return Err(disruption.error);
          }
          if |selected * disruption.value.impactedNodes| > 0 {
            disruptions := disruptions + 1;
          }
        }
      }
      assert items[..|items|] == items;
      return Ok(disruptions);
    }

    /**
      Recomputes the status: on success the watched nodes list each
      resolved node exactly once, the current disruptions are the count,
      and the allowed disruptions are the maximum minus the count, negative
      when over budget. On any error the status is left as it was.
    */
    method Sync() returns (r: Outcome<Error>)
      modifies budget
      ensures ImpactedNodes(lib, client, budget.namespace, budget.spec).Err? ==>
                r == Fail(ImpactedNodes(lib, client, budget.namespace, budget.spec).error) && unchanged(budget)
      ensures ImpactedNodes(lib, client, budget.namespace, budget.spec).Ok? &&
              DisruptionCount(lib, client, budget.namespace, budget.spec).Err? ==>
                r == Fail(DisruptionCount(lib, client, budget.namespace, budget.spec).error) && unchanged(budget)
      ensures ImpactedNodes(lib, client, budget.namespace, budget.spec).Ok? &&
              DisruptionCount(lib, client, budget.namespace, budget.spec).Ok? ==>
                && r == Pass
                && NoDuplicates(budget.watchedNodes)
                && NodeSetFromStringList(budget.watchedNodes) == ImpactedNodes(lib, client, budget.namespace, budget.spec).value
                && budget.currentDisruptions == DisruptionCount(lib, client, budget.namespace, budget.spec).value
                && budget.disruptionsAllowed == budget.spec.maxDisruptions - budget.currentDisruptions
    {
      var nodeNames := ResolveNodes();
      if nodeNames.Err? {
        return Fail(nodeNames.error);
      }
      var nodes := NodeSetToStringList(nodeNames.value);
      var disruptionNr := ResolveDisruption();
      if disruptionNr.Err? {
        return Fail(disruptionNr.error);
      }
      budget.watchedNodes := nodes;
      budget.currentDisruptions := disruptionNr.value;
      budget.disruptionsAllowed := budget.spec.maxDisruptions - disruptionNr.value;
      return Pass;
    }

    /** Whether an operation on `nd`'s nodes touches a node the budget watches. */
    function IsImpacted(nd: Disruption): (impacted: bool)
      reads budget
      ensures impacted <==> exists x :: x in budget.watchedNodes && x in nd.impactedNodes
    {
      var watched := NodeSetFromStringList(budget.watchedNodes);
      assert forall x :: x in watched * nd.impactedNodes <==> x in budget.watchedNodes && x in nd.impactedNodes;
      NonEmptyIntersection(watched, nd.impactedNodes);
      |watched * nd.impactedNodes| > 0
    }

    /** Whether one more disruption is tolerated, judged on the last synced status only. */
    function TolerateDisruption(nd: Disruption): (tolerated: bool)
      reads budget
      ensures tolerated <==> budget.disruptionsAllowed >= 1
    {
      budget.disruptionsAllowed - 1 >= 0
    }

    /**
      The health rule: healthy without a health URL; otherwise healthy
      exactly when the endpoint answers with a 2xx status, and unhealthy
      with the response body otherwise.
    */
    function CheckHealth(get: string -> HttpResponse): (r: Outcome<Error>)
      ensures budget.spec.healthURL.None? ==> r == Pass
      ensures budget.spec.healthURL.Some? ==>
                var response := get(budget.spec.healthURL.value);
                && (r == Pass <==> 200 <= response.statusCode < 300)
                && (r != Pass ==> r == Fail(UnhealthyResponse(response.body)))
    {
      match budget.spec.healthURL
      case None => Pass
      case Some(url) =>
        var response := get(url);
        if response.statusCode >= 200 && response.statusCode < 300 then Pass
        else Fail(UnhealthyResponse(response.body))
    }
  }

  /** A set intersection has positive size exactly when some element lies in both sets. */
  lemma NonEmptyIntersection(a: set<string>, b: set<string>)
    ensures |a * b| > 0 <==> exists x :: x in a && x in b
  {
    if exists x :: x in a && x in b {
      var x :| x in a && x in b;
      assert x in a * b;
    }
  }

  /** Once a prefix of the names fails, the whole union fails with the same error. */
  lemma {:induction false} UnionOverAbort(f: string -> Result<set<string>, Error>, names: seq<string>, k: nat)
    requires k <= |names|
    requires UnionOver(f, names[..k]).Err?
    ensures UnionOver(f, names) == UnionOver(f, names[..k])
    decreases |names|
  {
    if k < |names| {
      var init := names[..|names| - 1];
      assert init[..k] == names[..k];
      UnionOverAbort(f, init, k);
    } else {
      assert names[..k] == names;
    }
  }

  /** Once counting a prefix of the disruptions fails, counting the whole list fails with the same error. */
  lemma {:induction false} CountOverlappingAbort(c: Snapshot, selected: set<string>, nds: seq<NodeDisruption>, k: nat)
    requires k <= |nds|
    requires CountOverlapping(c, selected, nds[..k]).Err?
    ensures CountOverlapping(c, selected, nds) == CountOverlapping(c, selected, nds[..k])
    decreases |nds|
  {
    if k < |nds| {
      var init := nds[..|nds| - 1];
      assert init[..k] == nds[..k];
      CountOverlappingAbort(c, selected, init, k);
    } else {
      assert nds[..k] == nds;
    }
  }
}
