# Verified model of the company control plane and worker

A Dafny model of the parts of the repository where correctness rests on an argument that no single
function body shows: a graph search and the hierarchy it guards, two protocols run by several parties,
text and byte algorithms, traversals of JavaScript object graphs, and a greedy matching. `dafny verify
dfyconfig.toml` checks everything.

| file | what it models |
|---|---|
| `AuthorityGraph.dfy` | authority edges and the breadth-first `findPath` over them |
| `Hierarchy.dfy` | `setAuthorityEdge` as a table with a cycle check, and every run of it |
| `ManagerChains.dfy` | `assertAcyclic`, `validateAgentHierarchy`, and that they agree |
| `Reconciliation.dfy` | `registerServiceAgent` and `reconcileAgentDefinitions` |
| `Routing.dfy` | `selectCandidate`, `route`, `persistRouting`, `createEscalation` |
| `WakeupLease.dfy` | the claim, heartbeat, finish and recovery updates of a wakeup row, as a protocol over a clock |
| `ActionBroker.dfy` | the company action broker as an event-loop state machine |
| `CanonicalJson.dfy` | `canonicalize` as a normal form of JSON values |
| `Secrets.dfy` | the chunked secret scan of files and the redaction of known secrets |
| `ObjectGraph.dfy` | object graphs: paths, reachability, trees |
| `ConfigFreeze.dfy` | `deepFreezeConfig` over heap objects |
| `ProfileFreeze.dfy` | `freezeResolvedAgentProfile` over heap objects |
| `BoundedJson.dfy` | `isBoundedJsonValue` |
| `RequiredActions.dfy` | `missingRequiredCompanyActions`, `requiredCompanyActionsForHire` |
| `CitationClaims.dfy` | `citationClaims` |
| `Wrappers.dfy` | shared `Option`, `Result`, collation order, a fact on set sizes |

## How it is modelled

- Code that changes state is imperative: the classes `EdgeTable`, `Organization`, `ControlPlane`, `WakeupTable`
  and `Broker` have methods whose contracts give the whole new state, the objects to freeze live on the heap, and
  what the source does in a loop is a loop here. What a run of such steps promises is proved about the functions named in those contracts.
- A SQL table is a sequence or a map of one organization, and each `update ... where`, each insert and each
  service call is one atomic step. Recovery of a wakeup is two steps: the scan, and later the guarded write.
- SHA-256 is taken as injective: requests are identified by the canonical value itself. `localeCompare` is
  any total, transitive comparison; it may take two distinct keys for equal.
- The methods of `WakeupTable` and `Broker` are each one update of the source and one transition of the runs:
  claim (apps/worker/src/daemon-implementation.ts:936-952), heartbeat (995-1008), guard (1342-1361), finish (1363-1379), fail (4077-4093)
  and the two ways back into the queue (4235-4249, 4310-4327); connection (apps/worker/src/company-action-broker.ts:122-133), submission
  (69-86), clean-up of a failure (79-81), response (87-102) and close (143-153).
- A promise of the broker is unsettled, fulfilled or rejected; a job is chained on what the queue variable holds, and
  `then` passes a rejection on unless it is caught. That applies run one after another is proved from that chain.
- A clock value written to a row is the clock at that step. Identifiers accepted by a schema are trimmed, as
  `identifierSchema` does.

## Where the code does not keep the law it suggests

Each of these is proved as a lemma, together with the exact condition under which the law does hold.

- **White space defeats the cycle check.** `setAuthorityEdge` searches for the identifiers as given but
  stores them trimmed, so `"agent/a "` can be made the superior of `"agent/a"` (`SelfReportBySpace`). Calls with
  trimmed identifiers, and only those, keep every history sound (`TrimmingIsExact`). For the same reason
  registering definitions succeeds over every stored table exactly when their ids are trimmed (`RegistrationIsExact`).
- **Routing keys may share a row id.** `safeId` maps `route/security-1` and `route-security-1` to one row id; the
  later decision is returned but never stored, so asking again may give another answer (`KeysCollide`,
  `FirstAnswerStands`).
- **Keys the locale cannot tell apart.** An object with two such keys has reorderings with another canonical form,
  so a duplicate request would be applied again (`DeduplicationIsExact`).
- **The redaction marker can complete a secret.** A secret that fits the marker's text at an end, such as
  `xxxxxxx[`, can reappear when the secret beside it is replaced (`BracketedSecretLeaks`, `RedactionIsExact`).
- **A requirement for any project takes what another one needs.** The greedy matching reports a requirement as
  missing although all could be served, exactly if a requirement without a project stands before one of the
  same type with a project (`AnyHireTakesTheNamedOne`, `GreedyIsExact`). The obligations of a hired manager all name a
  project and are decided correctly.
- **A row below a source header can escape the citation check.** The scan skips a table and the line behind it. Where
  that line is the separator of a header that is itself the last row of the table, and has no bars, the rows below are
  claimed by nobody: in `|source`, `---`, `|source`, `---`, `|x` the last line is not checked (`RowEscapes`). All rows
  are claimed exactly when no header is passed over in this way (`PlainReadingIsExact`).
- **A durable loop run completes its wakeup without looking at its status**, so a wakeup that recovery failed or
  queued again turns completed; a run from the empty table shows it (`CompletionOverwrites`). A failed row stays failed
  exactly if that never happens, and a queued one stays queued exactly if that never happens and nobody claims it
  (`FailedIsExact`, `QueuedIsExact`).

## Model

| member | source | states |
|---|---|---|
| AuthorityGraph.FindPath | packages/company/src/control-plane.ts:547-576 | a path is returned exactly when both ids are non-empty and the target is reachable (`reports_to` both ways, the other listed relations forwards); it is a walk from source to target, of least length, without repetition; the search ends on cyclic graphs |
| AuthorityGraph.Expand | packages/company/src/control-plane.ts:558-573 | one round of the search keeps the frontier: waiting agents carry shortest walks in order of length, and every neighbour of a finished agent has been visited |
| AuthorityGraph.Layer | packages/company/src/control-plane.ts:553-574 | everything a walk shorter than the first waiting one reaches is already finished |
| AuthorityGraph.ShortestIsSimple | packages/company/src/control-plane.ts:547-576 | a walk of least length repeats no agent |
| AuthorityGraph.OneEdgeLeads | packages/company/src/control-plane.ts:558-566 | a single edge leads from its source to its target exactly if its relation is listed, and back exactly if it is a listed `reports_to` |
| Hierarchy.EdgeTable.HasPath | packages/company/src/control-plane.ts:578-585 | true exactly when the source is reachable from the target |
| Hierarchy.EdgeTable.SetAuthorityEdge | packages/company/src/control-plane.ts:84-127 | the answer (self edge, cycle, invalid id, or the stored edge) and the whole new table: the trimmed edge is added once, nothing else changes |
| Hierarchy.AnswersAreExact | packages/company/src/control-plane.ts:89-105 | a call is refused as a cycle exactly if its relation is `reports_to` or `manages` and the target already leads to the source by these; as a self edge exactly for equal ids; an empty id is never stored |
| Hierarchy.OthersAreStored | packages/company/src/control-plane.ts:92-127 | a call for any other relation between different ids is never refused, whatever the edges, and its trimmed edge is then in the table |
| Hierarchy.OneEdgeMore | packages/company/src/control-plane.ts:107-127 | the table gains exactly the answered edge, and stays without repetition |
| Hierarchy.TrimIsTrimmed | packages/contracts/src/primitives.ts:13 | trimming gives an identifier without white space at its ends and leaves exactly such identifiers alone |
| Hierarchy.TrimKeepsMiddle | packages/contracts/src/primitives.ts:13 | only white space at the two ends goes away |
| Hierarchy.RankInsert | packages/company/src/control-plane.ts:92-101 | an edge whose source cannot be reached from its target leaves room for a ranking of the agents that every hierarchy edge climbs |
| Hierarchy.RankedIsAcyclic | packages/company/src/control-plane.ts:99-101 | where such a ranking exists no chain of hierarchy edges returns to its start |
| Hierarchy.ForestInsert | packages/company/src/control-plane.ts:92-101 | an accepted edge keeps the reporting lines an undirected forest: each line stays the only connection of its ends |
| Hierarchy.EveryRunIsSound | packages/company/src/control-plane.ts:84-113 | from no edges, after any sequence of calls with trimmed ids, the `reports_to` and `manages` edges are acyclic from source to target and the `reports_to` edges form a forest |
| Hierarchy.EveryRunIsStored | packages/company/src/control-plane.ts:103-112 | after any sequence of calls all stored ids are non-empty and trimmed |
| Hierarchy.UntrimmedIsIsolated | packages/company/src/control-plane.ts:92-101 | an identifier with white space at an end has no path to or from it, so the cycle check cannot see it |
| Hierarchy.TrimmingIsExact | packages/company/src/control-plane.ts:84-113 | a hierarchy call keeps every clean history sound if and only if both its ids are trimmed |
| Hierarchy.SelfReportBySpace | packages/company/src/control-plane.ts:90-112 | a trailing space lets an agent report to itself |
| ManagerChains.Climb | packages/company/src/operational-governance.ts:466-472 | the walk up from an agent ends exactly when its manager chain ends; otherwise it reports the first agent met twice, which is on a cycle |
| ManagerChains.CollectManagers | packages/company/src/operational-governance.ts:456-464 | fails exactly when two claims name different managers for one agent; otherwise the map is exactly what the `reportsTo` and `manages` entries claim |
| ManagerChains.AssertAcyclic | packages/company/src/operational-governance.ts:455-474 | accepts exactly the definitions whose claims name one manager per agent and whose manager chains all reach a root; the two errors are told apart correctly |
| ManagerChains.CheckAgent | packages/company/src/index.ts:724-737 | the errors of one agent in their order: its manager if unknown, then the first agent met twice on the walk up; none exactly when the manager is known and the chain ends |
| ManagerChains.ErrorsOfOne | packages/company/src/index.ts:724-737 | an agent has at most one missing manager and one cycle, in this order: the first exactly if nobody has the id of its manager, the second exactly if its chain does not end |
| ManagerChains.FirstAnswers | packages/company/src/index.ts:720-722 | of several agents with one id the first gives the manager of that id, and an unknown id has none |
| ManagerChains.ValidateAgentHierarchy | packages/company/src/index.ts:719-739 | the errors of the agents in their order, each at its first place; none exactly when every agent is fine; every error is true and every fault has its error |
| ManagerChains.UniqueKeepsOrder | packages/company/src/index.ts:738 | an error keeps the place of its first occurrence |
| ManagerChains.ErrorsListed | packages/company/src/index.ts:724-738 | any list made in that way is empty exactly when all agents are fine, reports every fault, and is true throughout |
| ManagerChains.RepeatNeverEnds | packages/company/src/index.ts:729-736 | a chain that comes back to an agent never ends, and that agent is on a cycle |
| ManagerChains.ValidatorsAgree | packages/company/src/operational-governance.ts:455-474 | with unique ids, no `manages` lists and known managers, `assertAcyclic` accepts exactly what `validateAgentHierarchy` finds no error in |
| Reconciliation.Validate | packages/company/src/operational-governance.ts:78-93 | accepts exactly the definitions with distinct `agent/` ids whose references are known and not to themselves; each refusal is true of the definitions |
| Reconciliation.ValidAsksFor | packages/company/src/operational-governance.ts:78-93 | relation by relation: what is accepted has distinct ids that start with `agent/`, and every manager, managed agent and peer is a defined agent other than the one naming it |
| Reconciliation.BlameIsTrue | packages/company/src/operational-governance.ts:80-92 | each refusal has a definition at fault and the id it names |
| Reconciliation.Organization.RegisterServiceAgent | packages/company/src/index.ts:199-247 | the whole new table: an existing row is updated and a retired one stays retired, a new row is stored under its trimmed id, a second row for a stored id is refused |
| Reconciliation.RegisterWrites | packages/company/src/index.ts:199-247 | the fields written to a known row (the department only if given, active unless retired, failures kept) and to a new one (active, no failures) |
| Reconciliation.Organization.RegisterDefinitions | packages/company/src/operational-governance.ts:96-103 | the definitions are registered in order; a failure keeps what came before it |
| Reconciliation.DefinitionsWritten | packages/company/src/operational-governance.ts:96-103 | every defined agent ends with the metadata of its definition |
| Reconciliation.Organization.DeleteHierarchyEdges | packages/company/src/operational-governance.ts:126-137 | exactly the hierarchy edges touching a managed agent are removed |
| Reconciliation.KeptMore | packages/company/src/operational-governance.ts:126-137 | the edges that stay keep their order |
| Reconciliation.RegisteredRows | packages/company/src/operational-governance.ts:97-113 | with trimmed ids registration succeeds and every defined agent is then definition-managed |
| Reconciliation.RegistrationIsExact | packages/company/src/index.ts:199-247 | registering definitions succeeds over every stored table if and only if all ids are trimmed |
| Reconciliation.OrderManagers | packages/company/src/operational-governance.ts:140-151 | the second manager map holds exactly one entry per claimed agent, with its claimed manager |
| Reconciliation.NeverRefused | packages/company/src/operational-governance.ts:152-159 | no walk over the kept edges and the reporting lines set so far leads from an agent's manager to the agent, so the cycle check never refuses the next line |
| Reconciliation.Organization.LinkManagers | packages/company/src/operational-governance.ts:152-159 | the lines are set in order, each by one `setAuthorityEdge`, up to the first that is refused |
| Reconciliation.AllLinked | packages/company/src/operational-governance.ts:152-159 | for accepted definitions with trimmed ids every line is accepted and appended, whatever edges were kept |
| Reconciliation.Organization.ReconcileAgentDefinitions | packages/company/src/operational-governance.ts:74-161 | both tables and the answer in every case: refused definitions change nothing, a failed registration keeps the rows before it, otherwise agents no longer defined are retired, the hierarchy edges at managed agents deleted and the lines set in order |
| Reconciliation.ChainsEnd | packages/company/src/operational-governance.ts:139-151 | the chains of the second manager map end for every accepted list of definitions |
| Reconciliation.AcceptedIsReconciled | packages/company/src/operational-governance.ts:94-160 | accepted definitions with trimmed ids are always reconciled: registration succeeds, no edge is refused whatever edges existed before, exactly one reporting line per claimed manager follows the kept edges, and the returned counts are right |
| Reconciliation.AgentsReconciled | packages/company/src/operational-governance.ts:97-124 | from the old rows: a defined agent ends retired exactly if it was and is active otherwise, a definition-managed one no longer defined is retired, any other is as it was; all further rows are of defined agents, active and without failures |
| Reconciliation.EdgesReconciled | packages/company/src/operational-governance.ts:105-159 | the edges afterwards are exactly the claimed reporting lines and the old edges but for `reports_to` and `manages` edges at definition-managed agents |
| Reconciliation.ReconciledHierarchy | packages/company/src/operational-governance.ts:126-159 | afterwards the hierarchy edges at defined agents are exactly the `reports_to` edges the definitions claim |
| Reconciliation.KeptStaysForest | packages/company/src/operational-governance.ts:126-137 | deleting the hierarchy edges at some agents leaves the reporting lines a forest |
| Reconciliation.EveryHistoryIsSound | packages/company/src/operational-governance.ts:74-161 | however `setAuthorityEdge` calls with trimmed ids, reconciliations of trimmed definitions (accepted, refused or broken off) and changes of service agents are interleaved, the hierarchy is acyclic and a forest all along |
| Routing.CandidateIsLeast | packages/company/src/control-plane.ts:437-454 | the candidate is eligible and least by failure count and then id among all eligible agents; there is none exactly when nobody is eligible |
| Routing.CandidateSuits | packages/company/src/control-plane.ts:419-454 | the candidate is active, suits each filter of the request, and its department, if any, is active |
| Routing.NobodySuitsBetter | packages/company/src/control-plane.ts:437-454 | an active agent that suits every filter is never passed over for one with more failures, or as many and a greater id |
| Routing.ControlPlane.Route | packages/company/src/control-plane.ts:137-195 | a key decided before gets its decision again and no table changes; a fresh routed decision carries a shortest authority walk from requester to the selected agent and escalates nothing; a rejected one means no walk exists, an escalated one that nobody is eligible, and both refer to the escalation of their key; it fails exactly when the walk is longer than 128, and then changes nothing |
| Routing.DecisionsRestOnAuthority | packages/company/src/control-plane.ts:152-195 | every field of a decision; a routed one for a requester has a path of at most 128 agents along `manages`, `may_delegate_to` and `reports_to` that no other walk undercuts, and a rejected one means there is no such walk |
| Routing.RefusedPathsAreLong | packages/company/src/control-plane.ts:152-195 | routing fails only where there are such walks and all of them have more than 128 agents |
| Routing.RequestsEscalate | packages/company/src/control-plane.ts:160-190 | a request without an authorized agent is escalated as `routing` under its own key |
| Routing.ControlPlane.PersistRouting | packages/company/src/control-plane.ts:457-495 | the decision is stored exactly when its row id is free |
| Routing.ControlPlane.CreateEscalation | packages/company/src/control-plane.ts:282-357 | an existing escalation of the subject is returned; otherwise the target is the given one or the first superior of the requester, the path a shortest one to it or empty, and the escalation is stored exactly when its row id is free; it fails only for a path longer than 128 |
| Routing.EscalationsGoUp | packages/company/src/control-plane.ts:282-357 | every field of an escalation; its path runs along `must_escalate_to` and `reports_to` and is shortest; it is stored exactly if no escalation of its kind has its row id |
| Routing.TargetIsFirst | packages/company/src/control-plane.ts:305-314 | the target is that of the first edge by which the requester must escalate or reports |
| Routing.NoTarget | packages/company/src/control-plane.ts:305-314 | without such an edge there is no target |
| Routing.FoundTargetIsNear | packages/company/src/control-plane.ts:305-319 | where the target was found through an edge the path is that one step |
| Routing.TargetIsOneStep | packages/company/src/control-plane.ts:305-319 | an escalation target is reached by one step, so its path always exists |
| Routing.FirstAnswerStands | packages/company/src/control-plane.ts:139-149 | a decision is what every later lookup of its key returns, whatever else was decided since, if and only if the key's row id was free |
| Routing.KeysCollide | packages/company/src/control-plane.ts:668-670 | two ordinary keys with one row id |
| Routing.OrdinaryKeysDiffer | packages/company/src/control-plane.ts:668-670 | different keys of letters, digits, dots, underscores, colons and dashes, up to 240 long, have different row ids |
| Routing.SafeIdIs | packages/company/src/control-plane.ts:668-670 | a row id has the characters of its key up to 240, with dashes for all others |
| WakeupLease.WakeupTable.QueueRetryWakeup | apps/worker/src/daemon-implementation.ts:1397-1456 | without a work item, a run or an agent nothing happens; otherwise the retry is inserted unless its row id or its idempotency key is taken, and its session unless that is there |
| WakeupLease.FinishWrites | apps/worker/src/daemon-implementation.ts:1363-1379 | finishing, by the worker or by recovery, turns a claimed row completed, notes the time, takes the session given or keeps the one it had, and leaves the rest |
| WakeupLease.FailWrites | apps/worker/src/daemon-implementation.ts:4077-4093 | failing turns a claimed row failed with time and reason, and leaves the rest |
| WakeupLease.RequeueWrites | apps/worker/src/daemon-implementation.ts:4235-4249 | back in the queue, from a stale claim or a missed completion, a row has no times and no error; key and session stay |
| WakeupLease.ScanFinds | apps/worker/src/daemon-implementation.ts:4126-4142 | the scan finds exactly the claimed rows whose heartbeat, or else whose claim, is no later than a cutoff five minutes ago |
| WakeupLease.RecoveryAsks | apps/worker/src/daemon-implementation.ts:1342-1361 | whom each write finds: a recovery needs the very times it read, a worker only the claim |
| WakeupLease.OthersUntouched | apps/worker/src/daemon-implementation.ts:930-1008 | a write changes no row but its own, and a write that finds no row changes nothing |
| WakeupLease.CompletedIsExact | apps/worker/src/daemon-implementation.ts:4310-4327 | over every run a completed row stays completed if and only if no recovery of missed work that has found it queues it again |
| WakeupLease.RecoveryNeedsSilence | apps/worker/src/daemon-implementation.ts:4122-4257 | in every run, a recovery that changes a row does so at least five minutes after the row's last claim or heartbeat, however old its scan is |
| WakeupLease.SteadyHolderKeepsClaim | apps/worker/src/daemon-implementation.ts:4139-4257 | a claim whose signs of life are never five minutes apart stays claimed by the same claim until a worker ends it, whatever recoveries are pending |
| WakeupLease.OneWinner | apps/worker/src/daemon-implementation.ts:4175-4254 | when a recovery changes a row, no other recovery that has scanned it by then ever does, whatever times it read |
| WakeupLease.ClaimsAreBounded | apps/worker/src/daemon-implementation.ts:930-952 | over every run the successful claims of a row are at most its entries into the queue |
| WakeupLease.FailedIsExact | apps/worker/src/daemon-implementation.ts:1107-1114 | over every run a failed row stays failed if and only if no durable loop run completes it |
| WakeupLease.QueuedIsExact | apps/worker/src/daemon-implementation.ts:930-952 | over every run a queued row, queued again or for the first time, stays queued if and only if nobody claims it and no durable loop run completes it |
| WakeupLease.CompletionOverwrites | apps/worker/src/daemon-implementation.ts:1107-1114 | a run from the empty table: a worker claims and falls silent, recovery fails the row or queues it again, and the end of the loop run turns it completed |
| WakeupLease.RetryKeyInjective | apps/worker/src/daemon-implementation.ts:1434 | the idempotency key determines work item and attempt number |
| WakeupLease.RetryKeySpells | apps/worker/src/daemon-implementation.ts:1434 | the key reads `retry:`, the work item, a colon and the attempt number in decimal |
| WakeupLease.KeysStayUnique | apps/worker/src/daemon-implementation.ts:1422-1440 | over every run idempotency keys stay unique and rows keep theirs |
| WakeupLease.OneRetry | apps/worker/src/daemon-implementation.ts:1381-1457 | over every run there is at most one retry wakeup per work item and attempt number |
| ActionBroker.ChainedKept | apps/worker/src/company-action-broker.ts:77-85 | whatever happens, each apply is chained on the one accepted before it, with its rejection caught, and the queue variable stands behind the last one |
| ActionBroker.StartsBehindSettled | apps/worker/src/company-action-broker.ts:77-85 | an apply gets its turn only when all accepted before it have settled |
| ActionBroker.EveryStateIsGood | apps/worker/src/company-action-broker.ts:36-153 | every state of every run is chained, serial, indexed, truthful to its responses and drained as close demands |
| ActionBroker.OneAtATimeInOrder | apps/worker/src/company-action-broker.ts:77-85 | at most one apply runs at a time, and applies are taken in the order of acceptance |
| ActionBroker.AppliedOnce | apps/worker/src/company-action-broker.ts:72-96 | a fingerprint is applied successfully at most once and all success responses for it are equal |
| ActionBroker.SubmitIsExact | apps/worker/src/company-action-broker.ts:72-86 | a submission joins the job of its fingerprint, or is over the budget of 32, or becomes a new job behind all others |
| ActionBroker.AnsweredForItsOwn | apps/worker/src/company-action-broker.ts:69-102 | over every run, from its submission on a request awaits or was answered for a job of its own fingerprint, or was over the budget |
| ActionBroker.OneResultPerAction | apps/worker/src/company-action-broker.ts:69-102 | over every run, all requests that submitted one action and were told of success were told the same result |
| ActionBroker.OutcomeCameFrom | apps/worker/src/company-action-broker.ts:77-85 | over every run, an apply settles only by what it came to itself |
| ActionBroker.SuccessIsServed | apps/worker/src/company-action-broker.ts:87-102 | every success response carries the result of an apply that succeeded |
| ActionBroker.SuccessIsItsOwn | apps/worker/src/company-action-broker.ts:69-102 | a success told to a request is what an apply of the very action it submitted returned |
| ActionBroker.FailureIsItsOwn | apps/worker/src/company-action-broker.ts:69-102 | a failure told to a request is what an apply of the very action it submitted failed with |
| ActionBroker.BudgetHolds | apps/worker/src/company-action-broker.ts:74-78 | the request map never holds more than 32 entries, so at most 32 distinct actions ever succeed |
| ActionBroker.ForgetFindsItself | apps/worker/src/company-action-broker.ts:79-81 | the clean-up of a failed apply always finds its own entry and frees the fingerprint |
| ActionBroker.NeverPassedOver | apps/worker/src/company-action-broker.ts:82-85 | an apply that gets its turn is applied, even behind failures: the rejection handler keeps the queue from rejecting it |
| ActionBroker.QueueDrains | apps/worker/src/company-action-broker.ts:77-85 | whatever verdicts the remaining applies come to, failures included, the chain can be worked off to the end |
| ActionBroker.NothingStartsAfterClose | apps/worker/src/company-action-broker.ts:143-153 | once close has resolved every apply is settled and every request answered, and nothing afterwards starts an apply |
| ActionBroker.CloseCanResolve | apps/worker/src/company-action-broker.ts:143-153 | from every state of every run the broker can still be closed, whatever the remaining applies come to |
| ActionBroker.ConnectIsExact | apps/worker/src/company-action-broker.ts:122-133 | a connection while closing is answered at once and not accepted |
| ActionBroker.RefuseAndRelease | apps/worker/src/company-action-broker.ts:122-133 | a refused request becomes no job, and an answered one is dropped alone from those that close waits for |
| CanonicalJson.CanonicalIsSame | apps/worker/src/company-action-broker.ts:171-179 | the canonical form differs from the value only in the order of object entries |
| CanonicalJson.CanonicalDecides | apps/worker/src/company-action-broker.ts:171-179 | two values have equal canonical forms if and only if they are equal up to reordering entries at every depth, where no object has two keys that compare equal |
| CanonicalJson.CanonicalTwice | apps/worker/src/company-action-broker.ts:171-179 | canonicalizing twice is canonicalizing once |
| CanonicalJson.CanonicalIsOrdered | apps/worker/src/company-action-broker.ts:171-179 | at every depth the entries of the canonical form are in the order of their keys |
| CanonicalJson.TieShows | apps/worker/src/company-action-broker.ts:171-179 | a value with two keys that compare equal in one object has a reordering with another canonical form |
| CanonicalJson.DeduplicationIsExact | apps/worker/src/company-action-broker.ts:69-72 | a value is recognized in every order of its entries if and only if no object in it has two keys that compare equal |
| Secrets.SecretFreeFile | apps/worker/src/daemon-implementation.ts:387-402 | rejects exactly when the concatenated chunks contain a secret of length at least 8, however the content is cut |
| Secrets.TailSuffices | apps/worker/src/daemon-implementation.ts:396-400 | looking at the kept tail and the new chunk finds a needle exactly when the whole content up to here has it |
| Secrets.AbsentUnchanged | apps/worker/src/daemon-implementation.ts:366-372 | replacing a text that does not occur changes nothing |
| Secrets.LeftmostReplaced | apps/worker/src/daemon-implementation.ts:366-372 | replacing turns the leftmost occurrence into the marker and goes on behind it |
| Secrets.NothingCompleted | apps/worker/src/daemon-implementation.ts:366-372 | replacing one text never completes another that cannot interlock with the marker |
| Secrets.SecretGone | apps/worker/src/daemon-implementation.ts:366-372 | a secret that cannot interlock with the marker is not in the output, whatever is replaced before and after it |
| Secrets.EscapedSecretGone | apps/worker/src/daemon-implementation.ts:366-372 | likewise for a secret as JSON writes it: a JSON-escaped secret that cannot interlock with the marker is not in the output |
| Secrets.SecretReplaced | apps/worker/src/daemon-implementation.ts:366-372 | where a secret stands once the marker stands afterwards, and the text around it is kept |
| Secrets.EscapedSecretReplaced | apps/worker/src/daemon-implementation.ts:366-372 | the same where it stands JSON-escaped |
| Secrets.EscapeReadsBack | apps/worker/src/daemon-implementation.ts:369 | reading the escaped secret as JSON gives the secret back |
| Secrets.EscapesAre | apps/worker/src/daemon-implementation.ts:369 | exactly quotes, backslashes and control characters are escaped; seven of them have a short form, the others lower-case digits |
| Secrets.PlainSecretsNeverInterlock | apps/worker/src/daemon-implementation.ts:366-372 | secrets of length at least 8 without square brackets, other than REDACTED, cannot interlock with the marker |
| Secrets.PlainEscapesNeverInterlock | apps/worker/src/daemon-implementation.ts:366-372 | nor can their JSON-escaped forms |
| Secrets.CleanUnchanged | apps/worker/src/daemon-implementation.ts:366-372 | text that contains no secret and no JSON-escaped secret is returned unchanged |
| Secrets.FreshExists | apps/worker/src/daemon-implementation.ts:366-372 | for every secret shorter than the alphabet some unescaped character occurs neither in it, nor in its escaped form, nor in the marker |
| Secrets.RedactionIsExact | apps/worker/src/daemon-implementation.ts:3755-3757 | over the lists the call site passes, some text leaks the secret if and only if the secret can interlock with the marker |
| Secrets.BracketedSecretLeaks | apps/worker/src/daemon-implementation.ts:366-372 | a concrete secret that leaks |
| ConfigFreeze.DeepFreezeConfig | packages/config/src/config.ts:85-144 | succeeds exactly when the objects reachable from the root form a tree of supported objects no larger than the limit; every refusal is true of the graph; on success all reachable objects are frozen, none else and no content changes; at most limit + 1 rounds |
| ConfigFreeze.WhatIsAccepted | packages/config/src/config.ts:98-142 | acceptance and each refusal in terms of the objects: plain, without symbols and accessors, at most as many as the limit |
| ObjectGraph.ReachedIsLeast | packages/config/src/config.ts:98-142 | what is reached from the root is the least set with the root and all that its objects hold |
| ObjectGraph.TreeIsOneHolder | packages/config/src/config.ts:104-109 | a tree is where nothing reached holds the root and no two slots hold the same object |
| ConfigFreeze.Limit | packages/config/src/config.ts:89-95 | the limit is a whole number from 1 to 1000, or 1000 when absent |
| ConfigFreeze.Freeze | packages/config/src/config.ts:98-142 | the loop follows the walk, freezes exactly the finished objects, and stops at the first object that is wrong |
| ConfigFreeze.Inspect | packages/config/src/config.ts:101-141 | one round: which object is refused and why, or its children are pushed in order |
| ConfigFreeze.WalkHasFrontier | packages/config/src/config.ts:98-142 | after every round each way down from the root is finished or goes on from exactly one object on the stack |
| ConfigFreeze.WalkMeets | packages/config/src/config.ts:104-109 | an object met again is reached by two different paths, so the graph is no tree |
| ConfigFreeze.WalkEnds | packages/config/src/config.ts:100-143 | an empty stack means the graph is a tree and every reachable object has been visited |
| ProfileFreeze.Visit | packages/contracts/src/profile.ts:117-122 | the recursive search ends on cyclic graphs, freezes each object it finishes once, and leaves no value of a finished object unseen |
| ProfileFreeze.FreezeResolvedAgentProfile | packages/contracts/src/profile.ts:115-125 | every object reachable from the profile is frozen exactly once and no other object is touched |
| BoundedJson.IsBoundedJsonValue | packages/contracts/src/primitives.ts:26-56 | true exactly when every node is JSON-safe, nesting is at most 64 and the nodes number at most 100000 |
| BoundedJson.Replaced | packages/contracts/src/primitives.ts:43-51 | taking an entry from the stack and pushing its items keeps the node count and the safety of what is pending |
| BoundedJson.SafeIsEveryWay | packages/contracts/src/primitives.ts:26-56 | the recursive definition says of every way down that it meets only JSON and goes at most 64 levels deep |
| BoundedJson.SafeIsJson | packages/contracts/src/primitives.ts:26-56 | a safe value has at most 64 steps on every way down, and meets only JSON on it |
| BoundedJson.UnsafeIsFound | packages/contracts/src/primitives.ts:26-56 | any other has a way down that goes further, or meets a number that is not finite, an object of another kind or no JSON at all |
| BoundedJson.DownStep | packages/contracts/src/primitives.ts:43-51 | one goes down into the elements of an array and the values of an object, and nowhere else |
| BoundedJson.NodesAreWays | packages/contracts/src/primitives.ts:31-34 | the nodes of a safe value are its ways down, each counted once, so shared parts count each time |
| BoundedJson.CyclesAreUnsafe | packages/contracts/src/primitives.ts:26-56 | a value that contains itself at any depth is refused |
| RequiredActions.ParsedItem | apps/worker/src/company-actions.ts:188-199 | an item of the policy gives the one requirement it asks for, and nothing exactly if it asks for none |
| RequiredActions.ParsedInOrder | apps/worker/src/company-actions.ts:188-199 | parsing keeps the order of the items |
| RequiredActions.PolicyAsks | apps/worker/src/company-actions.ts:184-199 | a list asks for what its items ask for, any other value for nothing |
| RequiredActions.NamesAskFor | apps/worker/src/company-actions.ts:184-199 | the three names that ask for something |
| RequiredActions.MissingRequiredCompanyActions | apps/worker/src/company-actions.ts:184-212 | consuming a copy of the submitted list computes the greedy matching of the parsed requirements |
| RequiredActions.MissingIsUnserved | apps/worker/src/company-actions.ts:200-211 | what is reported missing is exactly what a one-to-one discharge of requirements by submitted actions leaves over |
| RequiredActions.MissingIsExcess | apps/worker/src/company-actions.ts:200-211 | when all requirements name a project, what is missing of each type and project is the number required beyond the number submitted |
| RequiredActions.GreedyIsExact | apps/worker/src/company-actions.ts:200-211 | nothing is reported missing whenever all could be served, for every list of actions, if and only if no requirement for any project stands before one of its type with a project |
| RequiredActions.NothingMissing | apps/worker/src/company-actions.ts:200-211 | in such an order nothing is missing exactly when a full one-to-one assignment exists |
| RequiredActions.AnyHireTakesTheNamedOne | apps/worker/src/company-actions.ts:200-211 | two requirements that could be served and are not |
| RequiredActions.HireObligations | apps/worker/src/company-actions.ts:157-168 | of the three obligations of a hired manager each is missing exactly when nothing of its type was submitted for the project |
| RequiredActions.HiresOwe | apps/worker/src/company-actions.ts:157-168 | nobody but a manager owes anything, and a manager exactly one requirement of each type |
| CitationClaims.CitationClaims | apps/worker/src/output-policy.ts:57-88 | lead sections if there is a lead heading, else the claimed table rows if there are any, else the list items or nothing |
| CitationClaims.LeadSections | apps/worker/src/output-policy.ts:58-67 | one section per lead heading, in order, holding exactly the lines up to the next heading, although the scan jumps over each section |
| CitationClaims.SectionAt | apps/worker/src/output-policy.ts:58-67 | the section of a lead heading stands at the number of lead headings before it and joins exactly the lines up to the next heading |
| CitationClaims.SectionsCounted | apps/worker/src/output-policy.ts:58-67 | there is no other section |
| CitationClaims.JoinBreaks | apps/worker/src/output-policy.ts:65 | joining puts one line break between any two lines |
| CitationClaims.FilterJoins | apps/worker/src/output-policy.ts:83-87 | filtering goes line by line, in order |
| CitationClaims.FilterKeeps | apps/worker/src/output-policy.ts:83-87 | and keeps exactly the fitting lines |
| CitationClaims.SourceRows | apps/worker/src/output-policy.ts:70-82 | the claimed lines, in order and once each: the non-separator lines of each run of table lines behind a source header that is not itself a row of an earlier table, although the scan jumps over each table and the line behind it |
| CitationClaims.RowAt | apps/worker/src/output-policy.ts:70-82 | a claimed line stands at the number of claimed lines before it |
| CitationClaims.RowsCounted | apps/worker/src/output-policy.ts:70-82 | there is no other row |
| CitationClaims.ClaimedLines | apps/worker/src/output-policy.ts:70-82 | a claimed line is a table line and no separator, in an unbroken run of table lines behind a separator behind a table line that mentions a source |
| CitationClaims.FirstHeaderClaims | apps/worker/src/output-policy.ts:70-82 | the first such header of a text claims the run below its separator |
| CitationClaims.TableEnds | apps/worker/src/output-policy.ts:78-81 | neither the separator, nor a row, nor the line behind a table opens another one, so skipping them loses nothing |
| CitationClaims.PlainReadingIsExact | apps/worker/src/output-policy.ts:70-82 | every non-separator line of the run below a source header is claimed if and only if no header is passed over: none stands among the rows of another one, with rows of its own behind a separator that is no table line |
| CitationClaims.FirstRowUnclaimed | apps/worker/src/output-policy.ts:78-81 | the first row below the first header that is passed over is claimed by nobody |
| CitationClaims.RowEscapes | apps/worker/src/output-policy.ts:70-82 | five lines with a row that is not claimed |

## Left out

- Routing.ControlPlane.Route: titles, risk, reasons and timestamps of decisions and escalations are not modelled, and the request is taken as already parsed.
- Routing.ControlPlane.CreateEscalation: identifiers are taken as already trimmed; risk, reason, context and status are not modelled.
- Reconciliation.AcceptedIsReconciled: speaks of trimmed ids only; for others the outcome is described step by step, and registration fails over some tables, which is stated exactly.
- ConfigFreeze.DeepFreezeConfig: a limit that is not a number (`NaN`, infinities) is not represented.
- ProfileFreeze.FreezeResolvedAgentProfile: values are read from a fixed list per object; getters that compute a value are not modelled.
- Secrets.SecretFreeFile: secrets are sequences of characters and the encoding to bytes is any function that is not shorter than its input; lone surrogates are not represented.
- WakeupLease.WakeupTable.QueueRetryWakeup: payloads and the retry time of the work item are not modelled.
- Secrets.RedactionIsExact: speaks of secrets of fewer than 1111936 characters, the number of characters outside ASCII; longer ones may leave none to build the leaking text from.
- CanonicalJson.CanonicalDecides: the engine's enumeration of integer-like keys before others is part of the comparison of keys, not a step of its own.
- Routing.SafeIdIs: counts characters, where the source counts UTF-16 code units; the two differ outside the basic plane.
- The decision which recovery a stale claim gets: it depends on the execution store, which is not part of this model; any choice is allowed.
- Delegation of routed work and everything behind the work item dispatcher.
- Attempts, sessions, locks, workspaces, schedules and the loop runner.
- The lifecycle commands of the company command service and the full export: simple checks only.
- HTTP, authentication headers, request bodies and process handling of the broker: a request before its fingerprint is known may be refused at any time.
- `assertSecretFreeValue` and `containsSecret`: plain searches.
- Parsing of submitted company actions: easy case distinctions.
- Regular expressions: the patterns of `citationClaims` are any predicates with the two relations their spelling gives; the URL and commercial-claim checks on the result are not modelled.
- All user interface, command line, file and network code.
