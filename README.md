# ApplicationDisruptionBudget resolution, in Dafny

This project models the resolver behind the ApplicationDisruptionBudget
controller of the node-disruption-controller. An ApplicationDisruptionBudget
protects an application in a namespace. It has a pod selector, a claim
(PVC) selector, a maximum number of concurrent disruptions and an
optional health URL. The resolver computes the set of nodes the budget
protects:

- the nodes its matching pods run on;
- the nodes the required node affinity of the volumes bound to its
  matching claims can reach.

It then counts the granted NodeDisruptions that touch those nodes and
writes the status: watched nodes, current disruptions, and allowed
disruptions (the maximum minus the count). Two predicates read that
status: whether a disruption impacts the budget, and whether the budget
tolerates one more. A health rule accepts only a 2xx answer.

Modules:

- `Wrappers`: `Option`, `Result` (the Go `(value, error)` returns, used with `:-`), and `Outcome` (a plain `error` return).
- `Kube`: the Kubernetes API types the resolver reads. It also has a `Library` value. That value stands for the library behaviour the resolver uses but does not define: converting a `metav1.LabelSelector`, `labels.NewRequirement` validation, `fields.ParseSelector` on a non-empty requirement list, and per-requirement matching. Every result here holds for any library behaviour.
- `Cluster`: a snapshot of the cluster store and the `List`/`Get` calls made on it. A call fails when it is marked as failing, or when a `Get` names an object that does not exist.
- `Affinity`: turns a node selector into one label selector and one field selector (`NodeLabelSelectorAsRequirement`, `NodeSelectorAsSelector`).
- `Resolver`: reference functions for what each resolver step returns; the loop methods, each proved equal to its reference function; the two classes `ApplicationDisruptionBudget` (the status `Sync` overwrites) and `ApplicationDisruptionBudgetResolver`; and the properties of the reference functions.

The model follows the code in three places where a reader might expect
something else:

- A pod that is not scheduled adds the node name `""` to the protected set.
- A matching claim that is not yet bound has the volume name `""`. Fetching a volume with an empty name is an error, so such a claim makes the claim path fail (`UnboundClaimFails`).
- Watched nodes come out in set iteration order. They are not sorted.
- A budget whose pod selector has no labels and no expressions protects no node through pods. More generally, so does any pod selector that converts to an empty selector. The claim path has no such guard: a claim selector with no labels and no expressions matches every claim in the namespace.

`NodeSelectorAsSelector` joins the requirements of all terms into one
conjunction. Kubernetes node affinity ORs its terms. So with more than one
term, the resolver selects only nodes that satisfy every term at once
(`FlattenedSelectorIsConjunction`).

## Model

| member | source | states |
|---|---|---|
| Affinity.SelectionOperator | internal/controller/applicationdisruptionbudget_controller.go:215-227 | Each of the four node operator names maps to the selection operator of the same name. Every other string maps to nothing. |
| Affinity.NodeLabelSelectorAsRequirement | internal/controller/applicationdisruptionbudget_controller.go:214-229 | An unknown operator is exactly the `InvalidOperator` error. A known operator keeps key and values and succeeds exactly when `labels.NewRequirement` accepts the requirement; otherwise the error is `InvalidRequirement`. |
| Affinity.TranslateRequirementsPointwise | internal/controller/applicationdisruptionbudget_controller.go:246-260 | Translating a requirement list succeeds exactly when every element translates. The result is then the element-wise translation. A failure is the error of the first element that fails. |
| Affinity.TranslateTermsFlattens | internal/controller/applicationdisruptionbudget_controller.go:245-261 | The term loop fails exactly when translating all requirements in visiting order fails (each term's expressions, then its fields), with that error. Otherwise it yields the translated expressions and fields of all terms, in term order. |
| Affinity.TranslateTermsAbort | internal/controller/applicationdisruptionbudget_controller.go:248-258 | Once a prefix of the terms fails, the whole translation fails with the same error. Later terms are not visited. |
| Affinity.NodeSelectorAsSelector | internal/controller/applicationdisruptionbudget_controller.go:233-267 | The nested loops compute the reference translation `SelectorsOf`. A nil selector gives `Nothing`/`Nothing`. A selector without terms gives `Everything`/`Everything`. |
| Affinity.SelectorsOfFlattened | internal/controller/applicationdisruptionbudget_controller.go:242-266 | For a selector with terms, the result is `Ok` exactly when every requirement translates and the field requirements (if any) parse. The label selector then holds all translated expressions; the field selector holds the translated fields, or `Everything` when there are none. Otherwise the error is the first failing requirement's, or the parse error. |
| Affinity.FlattenedSelectorIsConjunction | internal/controller/applicationdisruptionbudget_controller.go:245-266 | A node matches the label (field) selector exactly when it matches the translation of every `matchExpressions` (`matchFields`) requirement of every term. |
| Resolver.PodSelectorNodesMembers | internal/controller/applicationdisruptionbudget_controller.go:190-210 | The pod path fails exactly when the selector does not parse or, if non-empty, listing pods fails. A selector that converts to an empty one reaches no node, and a selector with no labels and no expressions converts to `Everything`, so it reaches no node. Otherwise the result is exactly the node names of the namespace's matching pods, with `""` for unscheduled pods. |
| Resolver.ApplicationDisruptionBudgetResolver.ResolveFromPodSelector | internal/controller/applicationdisruptionbudget_controller.go:190-210 | The pod loop computes the reference pod node set `PodSelectorNodes`, errors included. |
| Resolver.VolumeNames | internal/controller/applicationdisruptionbudget_controller.go:285-289 | The volumes to fetch are the claims' volume names, one per claim, in claim order. |
| Resolver.VolumeNodesCases | internal/controller/applicationdisruptionbudget_controller.go:293-315 | A volume's lookup error is its error. It contributes nothing when its required affinity is nil, has no term, or translates to two empty selectors. A translation error is its error. |
| Resolver.VolumeNodesListed | internal/controller/applicationdisruptionbudget_controller.go:317-333 | When the two selectors are not both empty, the volume fails exactly when listing nodes for it fails. Otherwise it contributes exactly the names of the nodes that match its non-empty selectors; an empty selector is left out of the list call. |
| Resolver.ApplicationDisruptionBudgetResolver.ResolveVolume | internal/controller/applicationdisruptionbudget_controller.go:293-333 | The body of the volume loop computes the reference contribution `VolumeNodes`, errors included. |
| Resolver.UnionOverMembers | internal/controller/applicationdisruptionbudget_controller.go:292-336 | Visiting the volumes in order succeeds exactly when every volume resolves. Otherwise it reports the first failing volume's error. On success the result holds exactly the nodes some volume contributes. This is proved for any per-volume contribution, so it covers `VolumesNodes`. |
| Resolver.ApplicationDisruptionBudgetResolver.ResolveVolumes | internal/controller/applicationdisruptionbudget_controller.go:292-336 | The volume loop computes the reference union `VolumesNodes` and returns on the first failure. |
| Resolver.ClaimVolumesContribute | internal/controller/applicationdisruptionbudget_controller.go:285-292 | Over the volume names collected from a claim list, a node is contributed exactly when the volume of one of the claims contributes it. Every name resolves only if every claim's volume does. |
| Resolver.PVCSelectorNodesMembers | internal/controller/applicationdisruptionbudget_controller.go:269-337 | A selector that does not parse, or a failing claim list, is the error. Otherwise a node is reached exactly when some matching claim of the namespace is bound to a volume that contributes it. The volume of every matching claim then resolves, and its nodes are in the result. A selector with no labels and no expressions converts to `Everything`, so this covers every claim of the namespace: there is no empty-selector guard. |
| Resolver.UnboundClaimFails | internal/controller/applicationdisruptionbudget_controller.go:291-298 | A matching claim whose volume name is empty makes the claim path fail, because the volume `Get` with an empty name fails. |
| Resolver.ApplicationDisruptionBudgetResolver.ResolveFromPVCSelector | internal/controller/applicationdisruptionbudget_controller.go:269-337 | The claim path computes the reference node set `PVCSelectorNodes`, errors included. |
| Resolver.ApplicationDisruptionBudgetResolver.ResolveNodes | internal/controller/applicationdisruptionbudget_controller.go:175-188 | The result is `Ok` exactly when both paths succeed. It is then the union of the pod nodes and the claim nodes. The pod path's error comes first. |
| Resolver.CountOverlappingIsCardinality | internal/controller/applicationdisruptionbudget_controller.go:355-371 | Counting succeeds exactly when every granted disruption resolves. The count is then the number of granted disruptions whose impacted nodes meet the selected nodes. Each is counted once however many nodes overlap. The count is at most the number of granted disruptions. |
| Resolver.ApplicationDisruptionBudgetResolver.ResolveDisruption | internal/controller/applicationdisruptionbudget_controller.go:339-372 | The disruption loop computes the reference count `DisruptionCount`. A failure to resolve nodes, to list disruptions or to resolve a granted disruption is returned as the error. |
| Resolver.ApplicationDisruptionBudgetResolver.CountGrantedOverlaps | internal/controller/applicationdisruptionbudget_controller.go:355-371 | The loop over the disruption list computes the reference count `CountOverlapping`. It skips disruptions that are not granted and returns on the first granted one that fails to resolve. |
| Resolver.NodeSetToStringList | internal/controller/applicationdisruptionbudget_controller.go:109-115 | The list built from the resolved set holds each element exactly once. Its length is the set's size. Turning it back into a set gives the original set. |
| Resolver.ApplicationDisruptionBudgetResolver.Sync | internal/controller/applicationdisruptionbudget_controller.go:103-126 | On a node or count error, `Sync` returns that error and leaves the status as it was. On success the watched nodes are exactly the resolved set, without duplicates; current disruptions is the count; allowed disruptions is the maximum minus the count, which may be negative. |
| Resolver.ApplicationDisruptionBudgetResolver.IsImpacted | internal/controller/applicationdisruptionbudget_controller.go:129-132 | A disruption impacts the budget exactly when some watched node is among its impacted nodes. |
| Resolver.ApplicationDisruptionBudgetResolver.TolerateDisruption | internal/controller/applicationdisruptionbudget_controller.go:135-138 | One more disruption is tolerated exactly when the allowed disruptions of the last synced status are at least one. The disruption itself is not consulted. |
| Resolver.ApplicationDisruptionBudgetResolver.CheckHealth | internal/controller/applicationdisruptionbudget_controller.go:153-173 | Without a health URL the budget is healthy. With one, it is healthy exactly when the answer's status code is in [200, 300). Otherwise the error carries the response body. |

## Left out

- `Reconcile` (fetch, `Sync`, `UpdateStatus`) is not modelled: it is store I/O around `Sync`. Its check at lines 81-83 tests a stale `err`, so a `Sync` error is discarded and the status is still written. Because `Sync` leaves the status unchanged on error, that write stores the previous status.
- `SetupWithManager`, `UpdateStatus` and `GetNamespacedName` are controller-runtime wiring and store writes. They are not modelled.
- `ResolveFromPVCSelector` reads `pv.Spec.NodeAffinity.Required` at line 300 without checking `NodeAffinity` for nil, so a volume with no `nodeAffinity` block makes Go panic. The model only represents a volume's required affinity as present or absent. It cannot express the missing block or the panic.
- `CheckHealth`: the HTTP GET is a parameter that returns a status code and a body. Transport errors, the body read error and `log.Fatalln` (which ends the process) are not modelled.
- The library internals are parameters of a `Library` value: `metav1.LabelSelectorAsSelector` for a selector with labels or expressions, `labels.NewRequirement` validation, the text form of a requirement, `fields.ParseSelector` for non-empty input, and how one requirement matches a label or field set. The model fixes only what the resolver relies on. A label selector with no labels and no expressions converts to `Everything`. A selector is the conjunction of its requirements. `Nothing` matches no object.
- `Kube.ParseFieldSelector` is assumed library behaviour, not resolver code. An empty requirement list parses to `Everything`. Whether a non-empty list parses is left to the library.
- `matchFields` requirements are written out by `r.String()` (line 259) in label-selector syntax: `k in (v)`, `k notin (v)`, `k` or `!k`. The field-selector syntax only knows `=`, `==` and `!=`. So the real `fields.ParseSelector` at line 265 rejects every non-empty list, and a volume whose affinity has `matchFields` makes the claim path and `Sync` fail. The field halves of `SelectorsOfFlattened` and `FlattenedSelectorIsConjunction` are stated for any library, so they describe a case the real library never reaches.
- `labels.Selector.Add` sorts requirements by key. The model keeps them in visiting order. Matching a conjunction does not depend on that order.
- `NodeDisruptionResolver.GetDisruption` is not part of this model. A granted NodeDisruption's impacted node set is part of the snapshot, and its resolution fails exactly when the snapshot marks that call as failing.
- Go's `int` is 64 bits wide. The model uses unbounded integers for the count and the allowed disruptions, since no realistic input reaches the bound.
- The cluster is a fixed snapshot, so all reads within one `Sync` see the same state. Concurrent updates, caching and the second `ResolveNodes` inside `ResolveDisruption` seeing a different store are not modelled.
- The diagnostic `fmt.Printf` at line 313 and `fmt.Println` at line 136 are output only, and are not modelled.
- NodeDisruption states other than pending, granted and rejected are not modelled. Only `Granted` matters to the count.
- On an error path the Go functions return a value next to the error, and that value is not always empty. `ResolveFromPVCSelector` returns the partial node set built so far (lines 297, 308 and 328). `NodeSelectorAsSelector` returns the label selector it built next to the field parse error (line 266). Line 228 passes on whatever `labels.NewRequirement` returns. Every caller discards the value when the error is non-nil: for example, `ResolveNodes` returns a fresh empty set (lines 180 and 184). The model returns only the error, as an `Err` or `Fail`.
