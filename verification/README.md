# Verified model of the B2C app builder

This project models the parts of the repository whose correctness rests on graph search,
concurrent protocols, file transactions and text round trips, and proves what they promise.
Code that changes state step by step is modelled as methods and classes over that state; code made
of expressions is modelled as functions. `dafny verify dfyconfig.toml` checks everything.

- **Catalog graph.** `Catalogs` holds the data. `CycleDetection`, `Onboarding` and `Validation` are the
  validator, `Bridge` is the projection to the executable graph, `Recipes` the closure a recipe
  selects. `Adequacy` proves what a clean validation means for the bridge: the only thing that can
  still stop the projection is a domain without authority, and the only cycle that can still stop a
  recipe passes from a reader to the producer of what it reads. `CatalogExamples` shows a clean
  catalog for each of the two, which also meets what the rest of the validator asks of the fields
  modelled here. `Reports` and `Projection` say on the plain fields of the catalog what the validator
  reports and what crosses the bridge, without the functions that compute it. The validator model covers the
  checks the bridge depends on; every further check of the source only adds reports, so a
  catalog the source reports nothing about is clean in the sense used here.
- **Browser evidence.** `Replay` is the response interceptor as a state machine whose steps are the
  stretches of code between two awaits. `Publication` is the evidence and pointer transaction over a
  file system in which every command may fail; it counts the commands the system fails, so `Produce` has
  the exact condition of success and a run never fails because of its own files. The replay result holds at the drain check. The
  return comes after a further await: `Replay.PassAtTheReturn` says exactly when the result still
  holds then, and `Replay.PassDoesNotReachTheReturn` is a run in which it does not.
- **Mobile host.** `MobileContract` is the provider-neutral contract and the route; `MobileHost` is
  the transport, cut at its awaits, with calls interleaving freely. The host is proved to issue an
  effect at most once per key, to refine the contract, and to return exactly those admitted calls
  that came out as their operation asks.
- **Source roots.** `SourceRoots` is the directory walk that carves exclusions out of a tree. The
  cover is exact for paths incomparable with every exclusion. Two cases are part of the results: a
  directory above an exclusion is itself not covered (its other children are), and an exclusion
  that lies above the whole tree is not looked for.
- **Schedules and command lines.** `Crontab` covers the tag of a managed line, both edits and whole
  runs of edits. A workspace whose slug continues another's after a colon is claimed by it
  and one whose slug ends in another's tag signs its line away (`Crontab.OwnsExactly`, for every slug),
  so the run theorems are about slugs without a colon, white space or hash. `ShellQuoting` inverts the printed
  command line with the word rules of sections 2.2.1, 2.2.2 and 2.3 of the POSIX.1-2017 Shell Command
  Language, and the argument list with the flag parser of the session runner, which reads back what
  was set if and only if no value looks like a flag.
- **Text and packages.** `Text` and `Links` hold the path algebra and `LinkText` the link pattern, as
  a scanner of texts and a printer; `LinkTargets` says where a link leads by its characters alone.
  `ExportPackage` gathers a package, `LinkRewriting` lays it out, `RemoteLinks` covers what it leaves
  out, `PackageLinks` follows the links read from the written texts, `Rebasing` moves quoted links. Two
  things can happen to a rewritten link. It is taken for a URL when the target lies below the linking
  document's directory under a name that reads as a URL scheme. And it is cut when the path it spells
  out holds white space or a closing parenthesis, because the export writes decoded names: a package
  with such a name can hold a dangling link. Both conditions are exact, and `PackageExamples` has, for
  each, a repository every export of which shows it. A quoted link is normalized before it is decoded,
  the other way round than when it is resolved: the two agree on straight targets, and
  `Rebasing.QueryStepMisleads` and `Rebasing.EncodedStepMisleads` are targets on which they do not.
  `Blocks` is the marked-block replacement, which commutes exactly for blocks that stand
  side by side. `CanonicalForm` is the key-sorted form, `Fence` the code fence, unwrapped by the rules of
  sections 2.1, 2.2 and 4.5 of CommonMark 0.31.
- **Router calibration.** `Calibration` is the decision rule, the grid and the recommendation. What
  the program computes in floating point - leads, accuracies, distances, grid values - is given by an
  `Arithmetic`, one function for each expression, so monotonicity, optimality and order independence
  hold under every rounding. The tolerance of the front never trades accuracy exactly when the
  accuracies of the corpus size are separated by more than it: for exact accuracies up to, not
  including, a thousand million primary entries.

`Options`, `Sequences` and `Graphs` hold what the others share: lists, walks, reachability and the
two arguments every search here uses (a list with successors first is free of cycles; a closed set
holds everything reachable from it).

## Model

| member | source | states |
|---|---|---|
| CycleDetection.Detector.Visit | catalog/validate.ts:809-822 | Expanding a node leaves the active path as it found it and ends with the node settled, or still active with a cycle reported; settled nodes and reports are never withdrawn; terminates because the nodes neither active nor settled shrink |
| CycleDetection.IndexOf | catalog/validate.ts:812 | The start of a reported cycle is the first place of the node on the path |
| CycleDetection.BuildEdges | catalog/validate.ts:805 | Builds the edge map in which a repeated id keeps its last dependency list |
| CycleDetection.DetectCycles | catalog/validate.ts:804-824 | Every report is a genuine cycle along declared edges, nothing is reported if and only if the graph has no cycle, and each node the graph mentions is expanded exactly once |
| CycleDetection.LeaveKeeps | catalog/validate.ts:818-820 | Moving a finished node from active to settled keeps the search invariant, and while no cycle was found the settled nodes stay in successor-first order |
| Graphs.PostOrderHasNoCycle | catalog/validate.ts:818-820 | No cycle passes through a node of a duplicate-free list in which every successor comes earlier; this is why an empty report means no cycle |
| Onboarding.BuildAdjacency | catalog/validate.ts:549-556 | The adjacency map links two members of the group, in both directions, exactly when one of them declares the other |
| Onboarding.Unreached | catalog/validate.ts:557-568 | The stack loop reaches exactly the members joined to the start, and pushes each of them once |
| Onboarding.Members | catalog/validate.ts:546 | The grouped workflows are the members of the group, and the first of them is the first of the catalog |
| Onboarding.JoinedToOne | catalog/validate.ts:557-569 | The group is connected if and only if every member is joined to one of them |
| Onboarding.ReachBack | catalog/validate.ts:549-556 | Paths of the undirected group graph can be walked back, so one start decides connectivity |
| Onboarding.CheckGroup | catalog/validate.ts:545-577 | The group is reported disconnected if and only if its undirected dependency graph is not connected, and the listed ids are exactly those outside the component of the first grouped workflow |
| Validation.CheckKnown | catalog/validate.ts:782-784 | Reports exactly the values outside the known set, each against its owner |
| Validation.CheckIds | catalog/validate.ts:63-72 | Reports exactly the malformed ids and the repeated ids that have text before their first dot |
| Validation.CheckRefresh | catalog/validate.ts:276-297 | Reports exactly the refresh edges to unknown workflows and those that are no declared dependency |
| Validation.CheckReviews | catalog/validate.ts:303-329 | Reports exactly the review edges to unknown workflows, to the workflow itself, to one that is not depended on, and to one whose outputs the reviewer also writes; a self-review gets none of the later reports |
| Validation.CheckWorkflow | catalog/validate.ts:272-376 | Reports exactly the modelled referential defects of one workflow |
| Validation.CheckWriters | catalog/validate.ts:423-432 | Counting writers reports a path exactly when two output declarations name it, in one workflow or in two |
| Validation.CheckUnique | catalog/validate.ts:786-793 | Reports exactly the values met a second time |
| Validation.ValidateCatalog | catalog/validate.ts:45-529 | Sound and complete for every modelled defect; reports a cycle if and only if the declared dependencies have one and disconnection if and only if the onboarding group is not connected; silent if and only if the catalog is clean |
| Reports.CleanExactly | catalog/validate.ts:45-529 | On the fields of the catalog: it is silent if and only if its ids are well formed and distinct, every name is known, refresh and review edges are dependencies, no reviewer writes what it reviews, no path is written, declared or bound twice, the declared dependencies have no cycle and the onboarding group is connected |
| Reports.WorkflowReportExactly | catalog/validate.ts:272-376 | A report about a workflow is made if and only if what it says of the workflow is so, code by code, on the fields of the catalog |
| Reports.CatalogIdExactly | catalog/ids.ts:25-27 | An id is well formed if and only if it is one of the ten kinds, a dot, and a name of lower-case letters, digits, dots and dashes that begins with a letter or a digit |
| Reports.GroupEdgeExactly | catalog/validate.ts:545-556 | Two workflows of the group `onboarding-system` are joined if and only if one of them declares the other as a dependency |
| Bridge.ResolveReferences | catalog/bridge.ts:113-117 | Resolves every id to the reference of that id, in order, and fails if and only if some id names none |
| Bridge.LastWith | catalog/bridge.ts:85-87 | A lookup through a map built from a list finds the last entry of that id, and nothing exactly when the list has none |
| Projection.AuthorityExactly | catalog/domain-authority.ts:15-18 | The authority of a domain record, flag by flag, where an explicit flag wins and an absent one takes the default of the named ids: a machine domain is the maintainer's; of the others it is runtime if and only if it is system or grantable |
| Projection.ClassifyExactly | catalog/bridge.ts:11-18 | A domain id is classified by its first record: runtime if and only if that is no machine domain and is system or grantable, machine if and only if it is a machine domain, unknown otherwise |
| Adequacy.CleanIdsAreDistinct | catalog/validate.ts:63-72 | In a clean catalog all ids differ, although the duplicate test is blind to an id with nothing before its first dot |
| Adequacy.CleanWorkflow | catalog/validate.ts:272-376 | A clean workflow names only known dependencies, roles, references and artifacts, refreshes and reviews only what it depends on, and does not review itself |
| Adequacy.CleanWorkflowProjects | catalog/bridge.ts:97-158 | Every name a clean workflow uses resolves, through its role and the packs of the role, so its projection does not throw |
| Adequacy.ProjectAllPointwise | catalog/bridge.ts:97-158 | The projection of the list succeeds if and only if each workflow projects, and keeps length and order |
| Adequacy.CleanCatalogProjects | catalog/bridge.ts:76-175 | A clean catalog crosses the bridge if and only if the domain of each workflow is owned by the runtime or the maintainer |
| Adequacy.DependencyEdge | catalog/validate.ts:417-421 | Between distinct ids the graph the cycle check sees has exactly the declared dependencies |
| Adequacy.ProjectedNodes | catalog/bridge.ts:82-158 | The projected nodes are the runtime workflows, one for one and in order, with their paths kept and their edges restricted to runtime workflows; which workflows those are is Projection.WorkflowHasNode |
| Adequacy.RuntimeIdHasNode | catalog/bridge.ts:82-83 | An id is a runtime id if and only if a projected node carries it |
| Projection.WorkflowHasNode | catalog/bridge.ts:11-18 | On the fields of the first domain record with the domain of the workflow: the workflow has a node if and only if the record is no machine domain and is system or grantable |
| Projection.MachineHasNoNode | catalog/bridge.ts:11-18 | A workflow whose first domain record has the machine flag, or leaves it unset and is `domain.machine`, never has a node, whatever else the record says |
| Projection.NodesCarryKnowledge | catalog/bridge.ts:113-146 | Each node carries its domain and, in order, the references of its workflow and the context packs of its role, each with the references of the pack; every lookup finds the last entry of its id |
| Projection.CatalogProjectsExactly | catalog/bridge.ts:76-158 | For every catalog, clean or not: it crosses the bridge if and only if the domain of each workflow is owned and all that a runtime workflow names resolves; an unowned domain is refused first and the refusal lists exactly the workflows concerned |
| Projection.KeptArtifacts | catalog/bridge.ts:84-95 | An artifact crosses the bridge if and only if a runtime workflow writes its path or it is the source fingerprint |
| Adequacy.ProjectedEdges | catalog/bridge.ts:145-149 | A dependency, review or refresh edge is projected exactly when it is declared and its target crossed the bridge: the projected graph is closed and loses nothing |
| Adequacy.ProjectedGraphIsAcyclic | catalog/bridge.ts:148 | The executable dependency graph of a clean catalog has no cycle |
| Adequacy.CleanWritersAreUnique | catalog/validate.ts:423-432 | In a clean catalog a path is declared as an output in one place of one workflow only |
| Adequacy.ProjectedWritersAreUnique | catalog/bridge.ts:150 | The same holds among the projected nodes: one writer, one place |
| Adequacy.ProjectedArtifactIsUnique | catalog/bridge.ts:93-95 | Every projected output path is the path of exactly one projected artifact |
| Recipes.ById | catalog/bridge.ts:194 | The map by id holds every id of the list, each with the last workflow of that id |
| Recipes.Producers | catalog/bridge.ts:195 | The keys are exactly the declared output paths, each with a workflow that declares it |
| Recipes.LastWriterProduces | catalog/bridge.ts:195 | Of several workflows that declare a path the last one in the list produces it |
| Recipes.ReadProducers | catalog/bridge.ts:205-208 | The reads of a node lead to exactly the producers of its read paths other than itself |
| Recipes.RecipeEdgeExactly | catalog/bridge.ts:202-208 | On the list of workflows: one id leads to another in the recipe search if and only if the last workflow of the first id names the second as a dependency, a review target or a refresh dependency, or the second is not empty, is another id, and belongs to the last declared writer of one of its read paths |
| Recipes.ProducerIsLastWriter | catalog/bridge.ts:195 | A path is produced by an id if and only if the last workflow that declares the path as an output has that id |
| Recipes.Closure.Visit | catalog/bridge.ts:196-213 | Adds the node after everything it leads to and only what it leads to; a refusal for a cycle or a missing node names one that the node really reaches |
| Recipes.Collect | catalog/bridge.ts:192-214 | Succeeds if and only if everything reachable from the roots is in the catalog and lies on no cycle; the ids are then exactly the reachable ones, without duplicates and dependencies first |
| Recipes.ReachedIsLeast | catalog/bridge.ts:192-214 | What is collected lies in every set that holds the roots and is closed under the four kinds of edges |
| Recipes.SelectKeeps | catalog/bridge.ts:215 | A selection holds exactly the workflows of the given ids and leaves every other part of the catalog as it was |
| Recipes.SelectionProjects | catalog/bridge.ts:215 | A selection from a clean catalog crosses the bridge if and only if the domain of each selected workflow is owned by the runtime or the maintainer |
| Recipes.SelectionKeepsEdges | catalog/bridge.ts:215 | Restricting the catalog to a closed set of ids loses no dependency, review or refresh edge between runtime workflows: the projected node carries the edge and the target is a node |
| Recipes.CleanRecipeEdge | catalog/bridge.ts:202-208 | In a clean catalog every edge of the recipe search is a declared dependency or leads from a reader to a producer |
| Recipes.RecipeCyclesReadBack | catalog/bridge.ts:196-213 | A cycle a recipe of a clean catalog is refused for uses an edge from a reader to a producer that is not a declared dependency |
| Recipes.CleanRecipeHasNoMissingNode | catalog/bridge.ts:199-200 | In a clean catalog a recipe of known workflows never meets a missing node |
| Recipes.ToRecipeInput | catalog/bridge.ts:183-216 | For every catalog: a recipe is refused if and only if something within reach is missing or lies on a cycle, and the refusal names such an id; otherwise the selection is exactly what is reached, closed and dependencies first, and is projected or refused as the bridge does with it. For known roots of a clean catalog it succeeds if and only if no cycle is within reach and the domain of every reached workflow is owned |
| CatalogExamples.CleanButUnprojected | catalog/bridge.ts:76-81 | A clean catalog whose one domain has no authority flag does not cross the bridge; it has the area, the knowledge bindings, the founder-language pack and the outputs the other checks ask for |
| CatalogExamples.CleanButRefused | catalog/bridge.ts:196-211 | A clean catalog, equipped in the same way, that crosses the bridge, with a recipe whose two workflows lie on a cycle: one reads what the other writes, and the other depends on it |
| Replay.ExpectedOf | tooling/browser-proof.ts:1087 | Every retained URL has an expected resource, the last one retained for it |
| Replay.Interceptor.Pause | tooling/browser-proof.ts:1097-1108 | The code from the event to its first await: the handler is registered as pending, waits for the body if and only if URL, network error and status are the retained ones, and fails otherwise with the first difference as the error, unless there is an earlier one |
| Replay.Interceptor.BodyArrived | tooling/browser-proof.ts:1109-1120 | The code after the body arrives: the handler extends the transcript and asks the browser to continue if and only if the bytes are the retained ones and the response names no media type or the retained one; otherwise it fails with the first difference as the error |
| Replay.Interceptor.Continued | tooling/browser-proof.ts:1120-1124 | An accepted continue releases the response; a refused one becomes a failure although the transcript entry stays |
| Replay.Interceptor.Fail | tooling/browser-proof.ts:1121-1124 | The catch clause keeps an earlier failure and touches neither the transcript nor the pending set |
| Replay.Interceptor.FailAnswered | tooling/browser-proof.ts:1124 | The abort is answered, or refused and ignored: the handler is over either way |
| Replay.Interceptor.Settle | tooling/browser-proof.ts:1128 | A finished handler leaves the pending set |
| Replay.Interceptor.DrainCheck | tooling/browser-proof.ts:1134-1135 | With nothing pending the check passes if and only if no failure was recorded, and then everything intercepted so far has been released as retained |
| Replay.Interceptor.HistoryArrived | tooling/browser-proof.ts:1136-1140 | After the await the call returns the transcript as it is then, or throws when the final URL differs |
| Replay.PauseExactly | tooling/browser-proof.ts:1097-1108 | What a paused response does to the state, by its URL, network error and status |
| Replay.BodyExactly | tooling/browser-proof.ts:1109-1120 | What a body does to the state, by its bytes and the media type of its response |
| Replay.AnswersExactly | tooling/browser-proof.ts:1120-1128 | What an accepted and a refused continue, the answer to an abort and the end of a handler do to the state |
| Replay.VerifierExactly | tooling/browser-proof.ts:1134-1140 | The check passes if and only if there is no failure, the return gives the transcript if and only if the page is still the one |
| Replay.StepKeepsInv | tooling/browser-proof.ts:1097-1129 | Every step of every handler keeps the protocol invariant |
| Replay.RunKeepsInv | tooling/browser-proof.ts:1097-1129 | The invariant holds at every state of every interleaving |
| Replay.NoHandlerIsStuck | tooling/browser-proof.ts:1097-1135 | In every state of every run a pending handler can take whatever answer it waits for, or end, and once none is pending the check can be made |
| Replay.ReleasedResponsesMatch | tooling/browser-proof.ts:1105-1120 | Whatever the interleaving, a response the browser was told to consume has the status and bytes retained for its URL and no media type but the retained one, and so does every transcript entry |
| Replay.FailureIsSticky | tooling/browser-proof.ts:1122 | The first failure of a run is never cleared nor replaced |
| Replay.PassMeansAllReleased | tooling/browser-proof.ts:1134-1135 | Nothing pending and no failure: every intercepted response was released with matching status, bytes and media type, and the transcript has exactly one entry for each |
| Replay.TranscriptGrows | tooling/browser-proof.ts:1119 | The transcript is only ever extended |
| Replay.ClearUntilRefused | tooling/browser-proof.ts:1135-1140 | From a pass on, no failure is recorded if and only if no handler refuses its response |
| Replay.ReleasedWhenContinued | tooling/browser-proof.ts:1120 | A response is released if and only if the browser has accepted its continue |
| Replay.PassAtTheReturn | tooling/browser-proof.ts:1134-1140 | At any moment after a pass, the return for one, everything intercepted by then has been released as retained if and only if no handler has refused since the check and the browser has accepted every response paused since |
| Replay.ReturnedIsRetained | tooling/browser-proof.ts:1140 | What the verifying call returns holds only responses with the retained status and bytes |
| Replay.PassDoesNotReachTheReturn | tooling/browser-proof.ts:1135-1140 | A run whose check passes over a released response and whose call returns, while a response paused during the await in between has been refused |
| Publication.FileSystem.WriteExclusive | tooling/browser-proof.ts:201-204 | On success a file is added that did not exist and nothing else changes; it fails only if the place is taken, by a file, a directory or a file on the way, or the system fails the command, and then leaves at most directories and a partial file |
| Publication.FileSystem.RemoveTree | tooling/browser-proof.ts:601 | Removes a directory with everything below it, or fails having removed part of that; a failure is counted as a fault |
| Publication.TakenExactly | tooling/browser-proof.ts:201-204 | In the attempt directory a place is taken if and only if the run has written a file of that name |
| Publication.Producer.EmitDocument | tooling/browser-proof.ts:455-456 | Writes a document that binds intact files, adds nothing else, and yields an intact binding; it fails only if its name is used already or the system fails a command |
| Publication.Producer.EmitResources | tooling/browser-proof.ts:399-413 | Each resource is written under its own name, in order; it ends well only if every resource passes its checks and no two share a name, and badly only if one does not or two do or the system fails a command |
| Publication.Producer.EmitReceipt | tooling/browser-proof.ts:390-456 | The receipt binds the build manifest, every configured resource through the resource manifest, and both transcripts, and all of it is intact; it is not written only if a resource does not pass, two share a name or the system fails a command |
| Publication.Producer.EmitCapture | tooling/browser-proof.ts:458-508 | The image and transcript of the capture and a receipt that binds the image, each at its path and intact; it is given up exactly if the capture does not pass its checks, one of its names is used already or the system fails a command |
| Publication.Producer.EmitInteraction | tooling/browser-proof.ts:509-546 | The transcript of the interaction and a receipt that binds it, each at its path and intact; it is given up exactly if the interaction does not pass its checks, one of its names is used already or the system fails a command |
| Publication.Producer.EmitEvidence | tooling/browser-proof.ts:390-568 | The receipt and a manifest that binds the receipt and every configured capture and interaction, and nothing else, all intact; only the attempt directory was added to. It ends badly only if an item does not pass, two of a kind share a name or the system fails a command: a run never gets in its own way |
| Publication.WritePointer | tooling/browser-proof.ts:224-230 | The pointer is replaced by the new one in one step or stays as it was; it stays only if a directory stands in its place or the system fails a command |
| Publication.TryPublish | tooling/browser-proof.ts:390-579 | The pointer is moved only after the receipt and the manifest of all captures and interactions are intact in the attempt; it is not moved only if an item does not pass, names clash, something stands in its place or the system fails a command |
| Publication.Produce | tooling/browser-proof.ts:384-604 | A run succeeds if and only if its attempt is new and its place free, every resource, capture and interaction passes, no two of a kind share a name, nothing stands in the way of the pointer and the system fails no command; it then publishes intact evidence. One that throws at any step leaves the pointer as it was and, if its cleanup completes, no attempt directory, and one of these reasons is there; no run changes a file outside its attempt, the pointer and its temporary file |
| Publication.HeldKept | tooling/browser-proof.ts:384-388 | A binding stays intact while the files of its directory do, at every level of what it names |
| Publication.RunKeepsEvidence | tooling/browser-proof.ts:384-604 | No run changes a file below the runtimes directory that was there before |
| Publication.RunKeepsPublished | tooling/browser-proof.ts:384-604 | After any run the published pointer names existing files with the recorded contents, if it did before |
| Publication.HistoryIsSafe | tooling/browser-proof.ts:224-230 | Over any history of succeeding and failing runs the pointer never dangles, and evidence once published stays intact |
| MobileHost.Transport.Execute | adapters/mobile-operation-host.ts:139-140 | A call enters with its request and key and waits for the support answer |
| MobileHost.Transport.AfterSupport | adapters/mobile-operation-host.ts:140-198 | The code from the support answer to the next await takes the step of the protocol, with no await between the test of the key and its insertion; MobileHost.AdmittedCallExactly says what that step is |
| MobileHost.Transport.TakeCapture | adapters/mobile-operation-host.ts:155-172 | The code from the first foreground answer to the second await issues the screenshot and judges its bytes |
| MobileHost.Transport.FinishCapture | adapters/mobile-operation-host.ts:172-197 | The code from the second foreground answer to the result records it under the key |
| MobileHost.Transport.Record | adapters/mobile-operation-host.ts:177-197 | A result is recorded under its key with the request it answers |
| MobileHost.Transport.ReadBack | adapters/mobile-operation-host.ts:199-207 | A readback answers with the recorded observation exactly when the same request was recorded under the key, it is fresh and every readback of the host succeeds; it throws exactly when the request was recorded and one of these fails, and answers nothing otherwise |
| MobileHost.AdmittedExactly | adapters/mobile-operation-host.ts:139-149 | A call is admitted if and only if its request is well formed, fresh and addressed to this host and target, the target was inspected twice and is a booted simulator, the operation is offered, and the key is there and unspent |
| MobileHost.RefusedExactly | adapters/mobile-operation-host.ts:139-149 | A refused call throws and changes nothing else |
| MobileHost.NoCallIsStuck | adapters/mobile-operation-host.ts:138-197 | A waiting call can take whatever answers come, at any moment not before the last reading of the clock |
| MobileHost.AdmittedCallExactly | adapters/mobile-operation-host.ts:148-177 | An admitted call spends its key; a launch returns its result and records it if and only if it gave a process that was read back, an inspection if and only if it is confirmed, and otherwise they throw with nothing recorded; a screenshot goes on to its foreground test |
| MobileHost.BeforeExactly | adapters/mobile-operation-host.ts:155-172 | The screenshot is taken if and only if the foreground is right, and kept if and only if it gave a PNG; otherwise the call throws |
| MobileHost.AfterExactly | adapters/mobile-operation-host.ts:172-197 | The capture is returned and recorded with its bytes if and only if the foreground is still right and the last inspection is confirmed; otherwise the call throws |
| MobileHost.StepKeepsOnce | adapters/mobile-operation-host.ts:139-198 | Every step of every call keeps the at-most-once invariant |
| MobileHost.StepKeepsResults | adapters/mobile-operation-host.ts:196 | No step replaces or removes a recorded result |
| MobileContract.SupportedExactly | contracts/mobile-operation.ts:97-119 | A request is supported if and only if both sides are well formed and at most 60 seconds old, provider, operation and device match what is offered, the device is a real one and the scope fields fit the operation; a refusal gives a reason there is |
| MobileContract.NormalizedExactly | contracts/mobile-operation.ts:120-148 | An observation is accepted if and only if it is well formed, fresh, of this request, completed with all its actions, and has the right capture exactly when the operation captures; a refusal gives a reason there is |
| MobileContract.RequestExactly | contracts/mobile-operation.ts:30-39 | A request is well formed if and only if no text is missing, it asks for thirty actions at most and for a video of one to sixty seconds if it asks for one |
| MobileContract.SupportExactly | contracts/mobile-operation.ts:41-54 | A support answer is well formed if and only if it names its provider and none of its tuples is without operations |
| MobileContract.ObservationExactly | contracts/mobile-operation.ts:56-79 | An observation is well formed if and only if no text is missing, no count is negative, and its capture, if any, has an id, a state, an extent and no empty duration |
| MobileContract.CaptureExactly | adapters/mobile-operation.ts:50-79 | Retained bytes are accepted if and only if they are those of the observed capture under the declared id and have its format, byte for byte, or there is neither capture nor bytes nor id |
| MobileContract.BigEndianExactly | adapters/mobile-operation.ts:68-69 | The four bytes of an extent are the digits of the number to base 256, the highest first |
| MobileContract.DeclaredExactly | adapters/mobile-operation.ts:93-94 | A route may be declared for a screenshot or a video exactly with a capture artifact, for any other operation exactly without |
| MobileContract.RouteExecutesExactly | adapters/mobile-operation.ts:104-115 | The route returns the observation if and only if it is accepted and so are its bytes |
| MobileContract.RouteObservesExactly | adapters/mobile-operation.ts:117-129 | The route recognises a readback if and only if it is asked for its own operation and provider, the request is supported and what is read back is accepted and is what was recorded |
| MobileHost.EffectsHappenAtMostOnce | adapters/mobile-operation-host.ts:139-197 | Over every interleaving, with any failures, a key launches or captures at most once, every recorded key was dispatched, and a recorded result is never overwritten |
| MobileHost.RunKeepsEarned | adapters/mobile-operation-host.ts:139-197 | Every result returned or recorded in any run was earned: it answers an admitted request, at or after it, with the host target and the captured bytes |
| MobileHost.ReturnsExactly | adapters/mobile-operation-host.ts:138-197 | Over every run: a call has returned if and only if it was admitted and came out as its operation asks - a launch with a process read back, an inspection confirmed, a screenshot with the right foreground before and after, a PNG in between and a confirmation at the end |
| MobileHost.EntriesAreResults | adapters/mobile-operation-host.ts:177-197 | Over every run: each recorded result is what a call under its key returned, of a call that came out as its operation asks; a launch is recorded with the process its command named |
| MobileHost.RouteAcceptsEarned | adapters/mobile-operation.ts:50-79 | The route accepts an earned observation if and only if it is fresh, its capture has extent and carries the artifact id the route declares |
| MobileHost.HostRefinesContract | adapters/mobile-operation.ts:104-114 | Whatever the host returns in any run passes the checks of contract and route exactly within the 60 second window, given a capture with extent under the declared artifact id |
| MobileHost.LaterObserveRecognises | adapters/mobile-operation.ts:116-129 | A later observe of the route with the same request and key accepts the recorded result if and only if it is fresh for host and route, each by its own reading of the clock, and the host readbacks succeed; the support check reads the clock before |
| SourceRoots.Selection.Visit | adapters/device-proof.ts:250-258 | The recursive visit appends exactly the roots found below a directory, relative to the tree |
| SourceRoots.SourceSelection | adapters/device-proof.ts:246-263 | Refuses an exclusion that is the tree itself, and reports nothing found exactly when the walk is empty; otherwise returns the roots of the walk |
| SourceRoots.WalkIsExact | adapters/device-proof.ts:250-258 | The walk collects a path if and only if it is neither generated nor excluded, holds no exclusion, and every directory above it holds one |
| SourceRoots.GeneratedNames | adapters/device-proof.ts:246-258 | The eight names the walk passes over |
| SourceRoots.WalkFailsExactly | adapters/device-proof.ts:250-258 | The walk is refused if and only if it comes to look into a file, one an exclusion claims to lie in |
| SourceRoots.WalkIsDistinct | adapters/device-proof.ts:250-258 | No root is listed twice |
| SourceRoots.RootsAreSeparate | adapters/device-proof.ts:255-256 | No root lies inside another |
| SourceRoots.RootsAvoidExclusions | adapters/device-proof.ts:254-256 | No root equals or contains an exclusion, and one lies under an exclusion if and only if some exclusion is a proper ancestor of the whole tree |
| SourceRoots.CoverIsExact | adapters/device-proof.ts:246-263 | A path free of generated names is covered by a root if and only if it is neither at or under an exclusion nor above one, an exclusion above the whole tree apart |
| SourceRoots.CoverIsUnique | adapters/device-proof.ts:246-263 | A covered path lies under one root only |
| SourceRoots.SelectionIsExactCover | adapters/device-proof.ts:246-263 | Both together for the list that is returned |
| Crontab.TagIsExact | adapters/install-schedule.ts:105-107 | Reading from the last hash yields a tag if and only if the tag pattern matches the line, and yields the captured text |
| Crontab.TagTextExactly | adapters/install-schedule.ts:106 | What the pattern captures, character by character: `b2c:` and at least one more, without white space and hash |
| Crontab.RenderedTag | adapters/install-schedule.ts:128-130 | A rendered line carries its signature as its tag if and only if the slug has no white space and no hash; schedule and paths may hold anything |
| Crontab.RenderedWords | adapters/install-schedule.ts:128-130 | A rendered line read word by word: the words of the schedule, then the command with its script, its log and both redirections, then the hash and the mark of workspace and runtime |
| Crontab.OwnsExactly | adapters/install-schedule.ts:120-126 | For every slug: a workspace takes a rendered line for its own if and only if the line is found under its slug or one that continues it after a colon; it is found under the slug it was rendered for when that has no white space and no hash, under the slug of the tag that slug ends in, if it does, and otherwise under none |
| Crontab.TaggedSlugIsLost | adapters/install-schedule.ts:97-126 | A slug that ends in a tag signs its line away: the workspace of the tag claims it and its own workspace does not |
| Crontab.OtherClaimsTagged | adapters/install-schedule.ts:97-126 | Such a slug is `x # b2c:other` |
| Crontab.OwnsRendered | adapters/install-schedule.ts:120-126 | Among slugs without a colon a workspace owns its own rendered lines and nobody else's |
| Crontab.ColonSlugsCollide | adapters/install-schedule.ts:97-103 | Workspace `a` claims the lines of workspace `a:b` |
| Crontab.OwnersAreDistinct | adapters/install-schedule.ts:101-103 | Two clean slugs never claim one line |
| Crontab.AfterInstall | adapters/install-schedule.ts:137-146 | After an install the lines are the foreign ones in order followed by the rendered line, and the exact-line readback finds it |
| Crontab.AfterUninstall | adapters/install-schedule.ts:149-158 | After an uninstall exactly the foreign lines remain, in order, and the workspace readback finds nothing |
| Crontab.ReadBackExactly | adapters/install-schedule.ts:115-117 | The exact-line readback finds a line if and only if it is the last line, or an earlier one with or without the return that the split removes |
| Crontab.WorkspaceLineExactly | adapters/install-schedule.ts:120-126 | The workspace readback finds a slug if and only if a line it reads is tagged `b2c:`, the slug, a colon and something more |
| Crontab.StripKeepsTag | adapters/install-schedule.ts:115-126 | A return that the readback strips from a line does not change its tag |
| Crontab.Table.RunLocked | adapters/install-schedule.ts:577-605 | The locked section fails exactly when a command does, and then has left the table alone or applied the edit; otherwise the edit is in place and the answer says which: already there, installed, not confirmed or removed. An install that the readback does not confirm had options that are not clean |
| Crontab.RunsAreExact | adapters/install-schedule.ts:577-605 | After any sequence of edits over many workspaces, each workspace has exactly the line of its last install, and none if its last edit removed it |
| Crontab.ForeignLinesSurvive | adapters/install-schedule.ts:137-158 | Lines that no edited workspace owns survive every sequence of edits, in order |
| Crontab.ForeignTableKept | adapters/install-schedule.ts:137-158 | A table of foreign lines keeps exactly those lines, in order, among what is not managed |
| Crontab.EditsAreIdempotent | adapters/install-schedule.ts:168-174 | Repeating an edit changes nothing |
| ShellQuoting.ArgumentsReadBack | kernel/lib/cli.ts:9-25 | The flag parser of the runner reads back from the arguments exactly what the invocation sets if and only if no value looks like a flag |
| ShellQuoting.ParsedIsPlain | kernel/lib/cli.ts:9-25 | The parser never hands out a value that looks like a flag |
| ShellQuoting.BuildArguments | adapters/profile.ts:96-112 | Behind the script the pushes put flags that the parser of the runner reads back as the settings of the invocation, if and only if no value looks like a flag |
| ShellQuoting.FieldsReadBack | adapters/profile.ts:96-112 | Of an invocation none of whose values looks like a flag the runner reads back exactly these: each field under its own key, an optional one only when it is given, and no key besides |
| ShellQuoting.FlagsLookLikeFlags | adapters/profile.ts:96-112 | A value stands in the way of the readback if and only if it begins with two dashes |
| ShellQuoting.ScriptIsFirst | adapters/profile.ts:96-112 | The first argument is the session runner |
| ShellQuoting.QuotedToken | adapters/profile.ts:114-116 | A quoted token reads as the one word it was made from, whatever it holds |
| ShellQuoting.QuotedExactly | adapters/profile.ts:114-116 | A token is written as it is if and only if it is not empty and made of letters, digits and `_`, `.`, `/`, `-`; any other is put into single quotes |
| ShellQuoting.CommandLineRoundTrip | adapters/profile.ts:119-121 | The shell reads the command line as `tsx` followed by exactly the built arguments, empty ones, quotes and newlines included |
| ShellQuoting.CommandLineIsInjective | adapters/profile.ts:119-121 | Equal command lines mean equal argument lists |
| Text.SplitJoin | tooling/export-task-skill.ts:86 | Splitting what was joined at a separator returns the parts |
| Text.JoinSplit | tooling/export-task-skill.ts:86 | Joining what was split returns the text |
| Links.RelativeArrives | catalog/task-skills.ts:118 | Normalizing the start directory followed by the relative link arrives at the target |
| Links.SchemeExactly | tooling/export-task-skill.ts:13 | A relative link reads as a URL if and only if the target lies below its directory under a name that reads as a scheme |
| Links.RelativeLinkRoundTrip | tooling/export-task-skill.ts:17-30 | Resolving a relative link from its own place gives back the target and the suffix, with the one exception of a scheme-like name, where the link is lost; exact for all clean paths and suffixes |
| LinkTargets.NormalizeLaws | tooling/export-task-skill.ts:27 | The laws that determine a normalized path: steps up come first and names behind them, such a path is its own result, empty and `.` segments count for nothing, and a name and the step up behind it cancel |
| LinkTargets.ResolvesExactly | tooling/export-task-skill.ts:13-30 | Where a link leads, for every link and every decoder: nowhere local if and only if it is empty, a fragment, a network path or has a scheme; refused if and only if its path does not decode, or leaves the repository or has a backslash once it is taken from the directory of the document; otherwise to the file with the normalized segments, with everything behind the path kept |
| LinkText.PrintScan | tooling/export-task-skill.ts:14 | Printing what was scanned from a text returns the text |
| LinkText.MatchIsLink | tooling/export-task-skill.ts:14 | What matches is a label in brackets, a target without white space and closing parenthesis, and the rest of the line up to the first one |
| LinkText.LinkMatches | tooling/export-task-skill.ts:14 | A text that begins with a link of that shape matches exactly that link |
| LinkText.ScanExactly | tooling/export-task-skill.ts:14 | The cut of a text into links and other characters is the only one that prints the text again, whose links have the shape of the pattern and that passes over no character at which a link begins |
| LinkText.SameVerdict | tooling/export-task-skill.ts:80 | Whether a text begins with a link does not depend on the targets of the links in it |
| LinkText.RewriteReadsExactly | tooling/export-task-skill.ts:80-89 | A text whose targets were replaced scans to the replaced pieces if and only if each new target is not empty and holds no white space and no closing parenthesis |
| Rebasing.TargetParts | catalog/task-skills.ts:231 | Cutting a target at its marks gives its file part and, up to a second mark, its fragment |
| Rebasing.KeptExactly | catalog/task-skills.ts:230 | What is not rebased: a target that begins with a web or mail scheme or with a slash |
| Rebasing.CleanIsStraight | catalog/task-skills.ts:229-234 | Every target of clean names and steps without query and fragment is straight |
| Rebasing.RebaseKeepsTheFile | catalog/task-skills.ts:229-234 | A link quoted from a reference leads from its new place to the file it led to from the old one, with its query and its shortened fragment, for every straight target, encoded or not; exact up to the scheme-like name |
| Rebasing.ShortenedExactly | catalog/task-skills.ts:231-233 | A suffix is kept whole if and only if it has no fragment, or one that is not empty and holds no second mark |
| Rebasing.QueryStepMisleads | catalog/task-skills.ts:231-233 | A query with a step in it cancels the file it belongs to: the rebased link leads to another file |
| Rebasing.EncodedStepMisleads | catalog/task-skills.ts:231-233 | An encoded step is cancelled by a written one before it is decoded: the rebased link leads to another file |
| ExportPackage.EnqueueLinks | tooling/export-task-skill.ts:66-69 | Appends the known files a document links to, in order, except those already gathered; fails if and only if some link is refused |
| ExportPackage.GatherKeeps | tooling/export-task-skill.ts:57-70 | One turn of the work list keeps: gathered files are needed, declared and readable, and everything they link to is gathered or queued |
| ExportPackage.LinkEdgeExactly | tooling/export-task-skill.ts:66-69 | One file leads to another if and only if it can be read, none of its links is refused, and one of the links its text scans to resolves to the other, which is a declared reference |
| ExportPackage.BundledExactly | tooling/export-task-skill.ts:62-69 | What may be gathered: a declared reference below `knowledge/` that can be read and holds no refused link |
| ExportPackage.Gather | tooling/export-task-skill.ts:56-71 | Succeeds if and only if every file the roots lead to is declared knowledge, readable and without a refused link, and there are at most 512 of them; returns exactly those, without duplicates; a failure names its cause |
| LinkRewriting.Transform | tooling/export-task-skill.ts:78-89 | Writes the text printed from the pieces the old one scans to, each link with its new target; collects exactly the remote links it introduces, and fails if and only if a link is refused |
| LinkRewriting.Assemble | tooling/export-task-skill.ts:78-91 | Lays out every document at its destination and nothing else, the last one where two share a destination; fails if and only if some document holds a refused link |
| LinkRewriting.OnlyRenderedRefuse | tooling/export-task-skill.ts:66-69 | The gathered sources never stop the layout: gathering already refused their bad links |
| LinkRewriting.Export | tooling/export-task-skill.ts:51-91 | The export succeeds if and only if the revision is a full commit SHA, the gathering does and no rendered file holds a refused link; it bundles exactly the files the references lead to |
| RemoteLinks.PlacesExactly | tooling/export-task-skill.ts:72-75 | A gathered source goes below `references/source/`, a rendered file of the skill loses the directory of the skill, and nothing else has a place |
| RemoteLinks.SourcesWin | tooling/export-task-skill.ts:91 | Where a rendered file and a source share a place, the package holds the source |
| RemoteLinks.RemoteReads | tooling/export-task-skill.ts:86 | The text of a remote link: the repository on GitHub, the revision, the encoded segments of the file, and the suffix |
| RemoteLinks.RemoteIsInjective | tooling/export-task-skill.ts:86 | Two remote links of full revisions are one text only for the same revision, file, query and fragment, given an encoder that is injective and writes no slash, question mark or hash |
| RemoteLinks.RevisionExactly | tooling/export-task-skill.ts:53 | A revision is accepted if and only if it is forty lower-case hexadecimal digits |
| RemoteLinks.RewriteAdds | tooling/export-task-skill.ts:80-89 | A link to a repository file without a place becomes its remote link and adds that to the supplemental links; every other link adds nothing |
| RemoteLinks.SupplementalExactly | tooling/export-task-skill.ts:76-92 | The supplemental links of a package are exactly the remote links of those links of its documents that lead to a repository file outside it |
| PackageLinks.RewrittenLinkLeads | tooling/export-task-skill.ts:80-89 | From its new place a rewritten target leads to the new place of the file it led to, with the same suffix, if the package holds the file, and otherwise to nothing local; exact up to the scheme-like name |
| PackageLinks.TargetReadsWhole | tooling/export-task-skill.ts:84-87 | A rewritten target can be read whole if and only if the path it spells out holds no white space and no closing parenthesis, or, for a remote one, the file no closing parenthesis |
| PackageLinks.WrittenReadsBack | tooling/export-task-skill.ts:78-89 | A written document reads as the rewritten pieces it was printed from if and only if every link of it writes whole |
| PackageLinks.PackageIsClosed | tooling/export-task-skill.ts:72-91 | No link read from a text of the package dangles, when every link writes whole: one that leads to a local file leads to a file of the package |
| PackageExamples.PairIsWritten | tooling/export-task-skill.ts:53-84 | Whatever skill pages are rendered, the package of two references holds the text of the first with its link relative to the new place of the second |
| PackageExamples.DecodedSpaceDangles | tooling/export-task-skill.ts:24-84 | A declared reference with a space in its name, linked by its encoded name: it is gathered, and in every package the export can make of it the link read from the written text leads to a file the package does not have |
| PackageExamples.ColonNameIsLost | tooling/export-task-skill.ts:13-84 | A declared reference whose name reads as a URL scheme, linked behind a dot: in every package the export can make of it the link read from the written text leads nowhere, although the package has the file |
| Blocks.MarkersAreMarkers | tooling/render-task-skills.ts:9-10 | Both markers of a name without line break and opening angle bracket hold one opening bracket, at the start, and no line break |
| Blocks.MarkersExactly | catalog/render-routing.ts:40-41 | The text of both markers |
| Blocks.NoOverlap | tooling/render-task-skills.ts:11-13 | Occurrences of markers overlap only by beginning together |
| Blocks.StartIsNoEnd | tooling/render-task-skills.ts:9-10 | A start and an end marker never begin together |
| Blocks.StartBeginsStart | tooling/render-task-skills.ts:9-10 | One start marker begins another if and only if the names agree or the longer name goes on after the closing of the shorter |
| Blocks.ReplaceIsDefined | tooling/render-task-skills.ts:11-15 | A replacement is accepted if and only if each marker stands in the text exactly once, in order |
| Blocks.BlockIsReplaced | tooling/render-task-skills.ts:16 | What stands between the markers is replaced and nothing else changes |
| Blocks.ReplacementIsBlock | tooling/render-task-skills.ts:8-17 | The block is there again afterwards, each marker still once, with the new body between the old sides |
| Blocks.OutsideIsKept | tooling/render-task-skills.ts:8-17 | Nothing outside the markers changes and each marker stays unique |
| Blocks.LastWriteWins | tooling/render-task-skills.ts:8-17 | A second write of the block gives what it alone would have given; writing the same content twice is writing it once |
| Blocks.SideBySideCommutes | tooling/render-task-skills.ts:8-17 | Replacements of two blocks that stand side by side commute |
| Blocks.CommuteExactly | tooling/render-task-skills.ts:8-17 | Two replacements can be made in either order if and only if the blocks stand side by side, and then the order does not matter |
| Blocks.NestedDoNotCommute | tooling/render-task-skills.ts:8-17 | Of two nested blocks either can be replaced, but after the outer one the inner one is refused; the other order is accepted |
| CanonicalForm.CanonicalObject | tooling/render-hosted-bundle.ts:26-31 | The canonical fields of an object are sorted by key and are exactly the canonical images of its defined fields |
| CanonicalForm.SortedIsUnique | tooling/render-hosted-bundle.ts:29 | A list of fields sorted by distinct keys is determined by its entries |
| CanonicalForm.SameHaveOneForm | tooling/render-hosted-bundle.ts:23-34 | Values equal up to key order and undefined fields, at every level, have one canonical form |
| CanonicalForm.OneFormIsSame | tooling/render-hosted-bundle.ts:23-34 | Values with one canonical form are equal up to key order and undefined fields, at every level |
| CanonicalForm.CanonicalDecidesEquality | tooling/render-hosted-bundle.ts:23-34 | Canonical forms agree if and only if the values do |
| CanonicalForm.CanonicalIsIdempotent | tooling/render-hosted-bundle.ts:23-34 | The canonical form of a canonical form is itself |
| Fence.FenceIsLeast | tooling/render-hosted-bundle.ts:99 | A run of the fence length occurs nowhere in the document, and above three no shorter fence would do |
| Fence.ContentIsBody | tooling/render-hosted-bundle.ts:101-102 | No line of a text without such a run closes the fence, so the content of the block is that text |
| Fence.ClosesExactly | tooling/render-hosted-bundle.ts:101-102 | For the reader the round trip is about: a line closes the block if and only if it is up to three spaces, at least as many backticks as opened it, and blanks |
| Fence.LineExactly | tooling/render-hosted-bundle.ts:101-102 | For the same reader: a line ends at the first newline, return without a newline behind it, or both together |
| Fence.WrapRoundTrip | tooling/render-hosted-bundle.ts:97-102 | Unwrapping the fenced document returns it, with at most one newline added at its end |
| Calibration.PrimaryIsAntitone | tooling/calibrate-utterance-router.ts:175-182 | Whatever the subtraction, raising threshold or band never makes a decision primary, and never changes which workflow a remaining primary names |
| Calibration.PrimaryMeansClearLead | tooling/calibrate-utterance-router.ts:175-182 | A decision is primary if and only if the first score reaches the threshold and its computed lead over every other exceeds the band |
| Calibration.DecidesExactly | tooling/calibrate-utterance-router.ts:175-182 | There is no signal exactly without scores, the workflow with the first score is named exactly on a clear lead, and otherwise there are candidates |
| Calibration.EvaluateCell | tooling/calibrate-utterance-router.ts:196-213 | The counting loop computes the cell of its counts |
| Calibration.CellExactly | tooling/calibrate-utterance-router.ts:196-213 | What a cell counts, as sizes of sets: the entries that ask for a primary, those of them whose own workflow comes first with a clear lead, and those with a clear lead that ask for candidates or no signal; it is feasible if and only if there is none of the last |
| Calibration.CellIsAntitone | tooling/calibrate-utterance-router.ts:196-213 | Raising threshold or band lowers correct and false primaries weakly, so the feasible region is closed upwards |
| Calibration.GridIsExact | tooling/calibrate-utterance-router.ts:81-88 | With errors below a half before rounding, the grid holds the machine tenths from 10/10 to 30/10 and from 0/10 to 10/10 and nothing else |
| Calibration.RunGrid | tooling/calibrate-utterance-router.ts:215-224 | The result holds the cell of every pair, threshold by threshold, and nothing else |
| Calibration.GridIsOneCorpus | tooling/calibrate-utterance-router.ts:196-224 | The cells of a grid share their number of primary entries and differ by pair |
| Calibration.RecommendationIsOptimal | tooling/calibrate-utterance-router.ts:229-242 | Under any arithmetic: there is a recommendation if and only if some cell is feasible; it is feasible, within the tolerance of the best, and first by distance, threshold and band among those |
| Calibration.RecommendedIsNearest | tooling/calibrate-utterance-router.ts:237-242 | No cell that may be recommended is nearer to the recorded default, or as near with a lower threshold, or with the same threshold and a lower band |
| Calibration.RecommendationIsOrderFree | tooling/calibrate-utterance-router.ts:237-242 | Under any arithmetic the recommendation does not depend on the order of the cells |
| Calibration.AccuracyIsNeverTraded | tooling/calibrate-utterance-router.ts:226-242 | Over a corpus of a given size every recommendation is the most accurate feasible cell if and only if different accuracies of that size lie further apart than the tolerance |
| Calibration.ExactBound | tooling/calibrate-utterance-router.ts:226-234 | For exact accuracies that is so if and only if there are fewer than a thousand million primary entries |
| Calibration.RoundedBound | tooling/calibrate-utterance-router.ts:226-234 | For accuracies that err by 2^-53 at most it is so up to 999 million primary entries |

## Left out

- Validator checks the bridge does not depend on: areas, phases, lanes, gates, operators, providers, profiles, resolvable reads, founder phrasings, knowledge on disk and report texts; they can only add reports.
- The greedy dual-store reader search (catalog/validate.ts:841-862): it can report a missing reader although a distinct assignment exists.
- Fields the bridge copies unchanged, freshness dates of references, `bindCatalogOperations`, the snapshot a recipe is read from and the provider check after the projection.
- Replay: that the body the browser hands over is the body of the paused response is the promise of the Chrome DevTools Protocol; the timer before the drain loop and the final navigation check only delay or refuse.
- Publication: digests stand for contents; bounding a transcript and validating a document are steps that may fail and are counted with the commands; and the temporary pointer file of a failed run may stay behind. Attempts are told apart by runtime id and key; two runs at once in one attempt are not modelled.
- Publication.FileSystem.Write: a failed overwrite may leave any content in the temporary pointer file, which is what the system promises and no more.
- Mobile host: subprocess results, inventory, bundle inspection and foreground readings are answers the environment chooses; digests stand for bytes; descriptive fields of an observation and the schemas' string formats are omitted.
- Crontab: the preview digest, the wrapper file, approvals and the schedule lock itself (mutual exclusion is assumed); launchd translation, which is no equivalence when an interval does not divide 60; empty lines, which every edit drops.
- SourceRoots: symbolic links and the order in which a directory is listed.
- ShellQuoting: how a number is printed, and NUL characters, which no argument can hold; of the runner only its flag parser.
- Links: percent decoding and encoding are parameters, of which little is used: text without a percent sign decodes to itself; encoding is injective, leaves no white space, slash, question mark or hash and keeps closing parentheses. Links above the working directory are not resolved further.
- Export: symbolic links and file reading, the check of the task name before the gathering, and the license, notice, manifest and footer added after it.
- PackageLinks.PackageIsClosed: is about destinations whose names hold none of `?`, `#`, `%` or a backslash and none of which is the directory of another, as files of one tree cannot be.
- Rebasing.RebaseKeepsTheFile: holds one way, for straight targets that begin with no question mark: each path segment is a step or decodes to one name, a query follows a name and holds no step behind a slash. Of the decoder it uses that it reads segment by segment. The heading search around it is not modelled.
- CanonicalForm: numbers and strings are opaque values; keys that look like array indices, which a JavaScript object moves to the front, and undefined entries of arrays are excluded.
- Fence: only fences of backticks without an info string that holds one; bytes are characters.
- Calibration: that doubles meet what is used of the arithmetic (x - x is 0, taking the tolerance off raises nothing, rounding errors before the grid is rounded are below a half) is not derived from their format; the scores of a workflow are given.
- Catalog data tables, HTML and Markdown renderers, graders, provider probes and command-line parsing: single-branch facts or input and output.
