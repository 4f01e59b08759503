/**
  A snapshot of the cluster store, and the `List` and `Get` calls the
  controller makes against it. Each call either fails (its `Call` is in
  `failing`, or a `Get` names a missing object) or answers from the snapshot.
*/
module Cluster {
  import opened Wrappers
  import opened Kube

  /** A pod; `nodeName` is `""` while the pod is not scheduled. */
  datatype Pod = Pod(namespace: string, labels: map<string, string>, nodeName: string)

  /** A persistent volume claim, with the name of the volume bound to it. */
  datatype PersistentVolumeClaim = PersistentVolumeClaim(namespace: string, labels: map<string, string>, volumeName: string)

  /**
    A persistent volume, reduced to `spec.nodeAffinity.required`: absent
    (nil) or a node selector. A volume without a `nodeAffinity` block is
    not represented.
  */
  datatype PersistentVolume = PersistentVolume(requiredNodeAffinity: Option<NodeSelector>)

  /** A node, with the labels and fields its selectors are matched against. */
  datatype Node = Node(name: string, labels: map<string, string>, fields: map<string, string>)

  datatype DisruptionState = Pending | Granted | Rejected

  /**
    A NodeDisruption resource. `impactedNodes` is the node set that
    resolving it (`NodeDisruptionResolver.GetDisruption`) yields.
  */
  datatype NodeDisruption = NodeDisruption(name: string, state: DisruptionState, impactedNodes: set<string>)

  /** The outcome of `GetDisruption`: the nodes a disruption affects. */
  datatype Disruption = Disruption(impactedNodes: set<string>)

  /** The elements of `s` that satisfy `keep`, in their order. */
  function Filter<T>(s: seq<T>, keep: T -> bool): (r: seq<T>)
    ensures |r| <= |s|
    ensures forall i | 0 <= i < |r| :: r[i] in s && keep(r[i])
    ensures forall i | 0 <= i < |s| && keep(s[i]) :: s[i] in r
  {
    if s == [] then [] else (if keep(s[0]) then [s[0]] else []) + Filter(s[1..], keep)
  }

  /** An element is kept by `Filter` exactly when it is in `s` and satisfies `keep`. */
  lemma FilterMembers<T>(s: seq<T>, keep: T -> bool, x: T)
    ensures x in Filter(s, keep) <==> x in s && keep(x)
  {
    if x in s && keep(x) {
      var i :| 0 <= i < |s| && s[i] == x;
    }
  }

  datatype Snapshot = Snapshot(
    pods: seq<Pod>,
    claims: seq<PersistentVolumeClaim>,
    volumes: map<string, PersistentVolume>,
    nodes: seq<Node>,
    nodeDisruptions: seq<NodeDisruption>,
    failing: set<Call>)
  {
    /** `List` of pods in `namespace` matching `selector`. */
    function PodList(lib: Library, namespace: string, selector: LabelSelector): Result<seq<Pod>, Error> {
      if ListPods in failing then Err(StoreFailure(ListPods))
      else Ok(Filter(pods, (p: Pod) => p.namespace == namespace && LabelSelectorMatches(lib, selector, p.labels)))
    }

    /** `List` of claims in `namespace` matching `selector`. */
    function ClaimList(lib: Library, namespace: string, selector: LabelSelector): Result<seq<PersistentVolumeClaim>, Error> {
      if ListPersistentVolumeClaims in failing then Err(StoreFailure(ListPersistentVolumeClaims))
      else Ok(Filter(claims, (c: PersistentVolumeClaim) => c.namespace == namespace && LabelSelectorMatches(lib, selector, c.labels)))
    }

    /**
      `Get` of the cluster-scoped volume `name`. An empty name, the volume
      name of a claim not yet bound, is rejected before the store is asked.
    */
    function VolumeGet(name: string): (r: Result<PersistentVolume, Error>)
      ensures name == "" ==> r == Err(EmptyName)
    {
      if name == "" then Err(EmptyName)
      else if GetPersistentVolume(name) in failing then Err(StoreFailure(GetPersistentVolume(name)))
      else if name !in volumes then Err(NotFound(name))
      else Ok(volumes[name])
    }

    /**
      `List` of nodes, issued while resolving volume `forVolume`, with an
      optional label selector and an optional field selector.
    */
    function NodeList(lib: Library, forVolume: string, labelSelector: Option<LabelSelector>, fieldSelector: Option<FieldSelector>): Result<seq<Node>, Error> {
      if ListNodes(forVolume) in failing then Err(StoreFailure(ListNodes(forVolume)))
      else Ok(Filter(nodes, (n: Node) =>
        (labelSelector.None? || LabelSelectorMatches(lib, labelSelector.value, n.labels)) &&
        (fieldSelector.None? || FieldSelectorMatches(lib, fieldSelector.value, n.fields))))
    }

    /** `List` of all NodeDisruption resources. */
    function NodeDisruptionList(): Result<seq<NodeDisruption>, Error> {
      if ListNodeDisruptions in failing then Err(StoreFailure(ListNodeDisruptions))
      else Ok(nodeDisruptions)
    }

    /** `NodeDisruptionResolver.GetDisruption` for `nd`. */
    function DisruptionGet(nd: NodeDisruption): Result<Disruption, Error> {
      if GetDisruption(nd.name) in failing then Err(StoreFailure(GetDisruption(nd.name)))
      else Ok(Disruption(nd.impactedNodes))
    }
  }
}
