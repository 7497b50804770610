# Repository-chain component metadata resolver

This project models Gradle's `RepositoryChainComponentMetaDataResolver`, the
component that finds the metadata of a module by asking an ordered chain of
repositories. It covers the following:

- **Chain configuration.** `add` appends a repository to the chain and its
  name to a parallel list of names.
- **Cost estimate.** `isFetchingMetadataCheap` walks the chain and stops at
  the first repository whose local access estimates the fetch as fast
  (cheap) or expensive (not cheap). Without such a repository, or for an
  identifier that is not a module, fetching is cheap.
- **Resolution.** `resolve` refuses identifiers that are not module
  identifiers by throwing. For a module it builds one resolve state per
  repository, in chain order, and runs a two-pass search:
  - A scan takes states off the front of a queue and calls `resolve()` on
    each.
  - A failure aborts the whole search. A genuine resolution is returned at
    once.
  - A Missing answer puts the state on a missing list if it can make
    further attempts.
  - A missing-version placeholder is remembered if it is the first one.
  - The first (local) scan runs over all states. Only when it found
    nothing does a second (remote) scan run over the missing list.
  - The outcome is reported to the result. A failure is wrapped with the
    identifier. A resolution is reported as resolved. When nothing was
    found, every state records its attempt and then not-found is reported.

The files:

- `Components.dfy` holds the values: identifiers, fetch costs, step
  answers, resolutions and the events reported to a result.
- `ChainSearch.dfy` defines the search as functions over the states'
  views. `Scan` is one pass, `TwoPass` the two-pass search and `Report` what
  a call reports. The lemmas there state the search's guarantees.
- `Chain.dfy` holds the classes:
  - the resolver, with the two lists it mutates;
  - the per-repository resolve state, which counts its `resolve()` calls;
  - the result object, as a log of reported events.

  Its methods run the source's loops and queue. Each method is proved to
  produce the outcome, the missing list and the per-state call counts that
  the functions of `ChainSearch.dfy` define. The states of one search are
  told apart by a ghost `slot`, their position in the chain.

A repository's lookup logic is not visible to the resolver, so each
repository carries two oracles:

- `estimate` gives the cost its local access reports for a module.
- `respond` gives, for a module and its override metadata, the script of
  answers that a resolve state plays back. Entry k is the result of the
  (k+1)-th `resolve()` call and whether `canMakeFurtherAttempts()` holds
  after it.

A state driven past the end of its script answers with a failure
(`PastLastPhase`).

A local placeholder is returned at once (lines 110-113 of the resolver).
The remote pass never runs after it, even when states are waiting on the
missing list, and each remote pass starts with no best match.
`ChainSearch.LocalPlaceholderSkipsRemote` states this behaviour.

## Model

| member | source | states |
|---|---|---|
| ChainResolver.RepositoryChainResolver.constructor | subprojects/dependency-management/src/main/java/org/gradle/api/internal/artifacts/ivyservice/ivyresolve/RepositoryChainComponentMetaDataResolver.java:40-41 | a new chain has no repositories and no names, and the two lists agree |
| ChainResolver.RepositoryChainResolver.Add | subprojects/dependency-management/src/main/java/org/gradle/api/internal/artifacts/ivyservice/ivyresolve/RepositoryChainComponentMetaDataResolver.java:50-53 | the repository goes at the end of the chain and its name at the end of the names; the names stay the repositories' names position by position, and nothing else changes |
| ChainResolver.RepositoryChainResolver.Resolve | subprojects/dependency-management/src/main/java/org/gradle/api/internal/artifacts/ivyservice/ivyresolve/RepositoryChainComponentMetaDataResolver.java:55-61 | throws UnsupportedOperation exactly for a non-module identifier, leaving the result untouched; for a module the result receives exactly the module's report |
| ChainResolver.RepositoryChainResolver.IsFetchingMetadataCheap | subprojects/dependency-management/src/main/java/org/gradle/api/internal/artifacts/ivyservice/ivyresolve/RepositoryChainComponentMetaDataResolver.java:64-77 | cheap for a non-module identifier; for a module, not cheap exactly when an expensive estimate comes before any fast one in chain order, so an earlier expensive repository hides a later fast one |
| ChainResolver.RepositoryChainResolver.NewResolveStates | subprojects/dependency-management/src/main/java/org/gradle/api/internal/artifacts/ivyservice/ivyresolve/RepositoryChainComponentMetaDataResolver.java:82-85 | one new, distinct state per repository, in chain order, none asked yet, each playing its repository's script for the module |
| ChainResolver.RepositoryChainResolver.ResolveModule | subprojects/dependency-management/src/main/java/org/gradle/api/internal/artifacts/ivyservice/ivyresolve/RepositoryChainComponentMetaDataResolver.java:79-101 | the events appended to the result are exactly the report of the two-pass search over fresh states |
| ChainResolver.RepositoryChainResolver.ApplyAll | subprojects/dependency-management/src/main/java/org/gradle/api/internal/artifacts/ivyservice/ivyresolve/RepositoryChainComponentMetaDataResolver.java:89-92 | every state records its repository's attempt, all of them and in chain order |
| ChainResolver.RepositoryChainResolver.FindBestMatch | subprojects/dependency-management/src/main/java/org/gradle/api/internal/artifacts/ivyservice/ivyresolve/RepositoryChainComponentMetaDataResolver.java:103-119 | the outcome is the two-pass search over the states as they were on entry: the local pass, then, only if it returned nothing, a pass over exactly its missing list; every state has had exactly the calls that search makes of it (`CallsMade`) and no other |
| ChainResolver.RepositoryChainResolver.FindBestMatchInQueue | subprojects/dependency-management/src/main/java/org/gradle/api/internal/artifacts/ivyservice/ivyresolve/RepositoryChainComponentMetaDataResolver.java:121-149 | the outcome is the scan of the queue's states; each state of the search has had one more call if the scan resolved its queue entry and none otherwise, so nothing after a stop and nothing outside the queue is asked; the missing list keeps its old entries and gains, in order, the states the scan requeued, each one call further on; the list's states stay distinct |
| ChainResolver.RepositoryChainResolver.ResolveEntry | subprojects/dependency-management/src/main/java/org/gradle/api/internal/artifacts/ivyservice/ivyresolve/RepositoryChainComponentMetaDataResolver.java:124-145 | one call on the state; the scan stops exactly on a failure or a genuine resolution, the state is requeued exactly when it answered Missing and can make further attempts, and a placeholder is offered exactly when the answer is one |
| ChainResolver.ResolveState.constructor | subprojects/dependency-management/src/main/java/org/gradle/api/internal/artifacts/ivyservice/ivyresolve/RepositoryChainComponentMetaDataResolver.java:84 | a state for the repository, playing its script for the module, with no call made |
| ChainResolver.ResolveState.Resolve | subprojects/dependency-management/src/main/java/org/gradle/api/internal/artifacts/ivyservice/ivyresolve/RepositoryChainComponentMetaDataResolver.java:126 | answers the next entry of the script (a failure past its end) and moves on one call; further attempts are possible exactly as that entry says |
| ChainResolver.ResolveState.CanMakeFurtherAttempts | subprojects/dependency-management/src/main/java/org/gradle/api/internal/artifacts/ivyservice/ivyresolve/RepositoryChainComponentMetaDataResolver.java:132 | a state can make further attempts only after a call, and then exactly as the answer to its latest call says; never past the end of its script |
| ChainResolver.ExpensiveFirst | subprojects/dependency-management/src/main/java/org/gradle/api/internal/artifacts/ivyservice/ivyresolve/RepositoryChainComponentMetaDataResolver.java:64-77 | reference definition for the cost walk: some repository estimates expensive and every one before it estimates neither fast nor expensive; such a chain starts with a repository that is not fast, and a chain without an expensive estimate is never expensive-first |
| ChainResolver.ResolveState.ApplyTo | subprojects/dependency-management/src/main/java/org/gradle/api/internal/artifacts/ivyservice/ivyresolve/RepositoryChainComponentMetaDataResolver.java:91 | records this state's repository attempt on the result and nothing else |
| ChainResolver.ComponentResolveResult.MarkNotFound | subprojects/dependency-management/src/main/java/org/gradle/api/internal/artifacts/ivyservice/ivyresolve/RepositoryChainComponentMetaDataResolver.java:93 | appends the not-found verdict for the identifier |
| ChainResolver.ComponentResolveResult.MarkResolved | subprojects/dependency-management/src/main/java/org/gradle/api/internal/artifacts/ivyservice/ivyresolve/RepositoryChainComponentMetaDataResolver.java:96 | appends the resolved verdict for the resolution |
| ChainResolver.ComponentResolveResult.MarkFailed | subprojects/dependency-management/src/main/java/org/gradle/api/internal/artifacts/ivyservice/ivyresolve/RepositoryChainComponentMetaDataResolver.java:99 | appends the failed verdict carrying the identifier and the cause |
| ChainResolver.DistinctPop | subprojects/dependency-management/src/main/java/org/gradle/api/internal/artifacts/ivyservice/ivyresolve/RepositoryChainComponentMetaDataResolver.java:124 | the state taken off the queue occurs nowhere else in the queue or the missing list, so updating it leaves the other states as they were |
| ChainSearch.KeepFirst | subprojects/dependency-management/src/main/java/org/gradle/api/internal/artifacts/ivyservice/ivyresolve/RepositoryChainComponentMetaDataResolver.java:141 | a placeholder kept earlier is the outcome unless the rest of the scan throws or returns a genuine resolution: the outcome throws exactly when the rest does, always returns some resolution otherwise, and a placeholder outcome is the kept one |
| ChainSearch.StepInto | subprojects/dependency-management/src/main/java/org/gradle/api/internal/artifacts/ivyservice/ivyresolve/RepositoryChainComponentMetaDataResolver.java:127-142 | one entry of the scan: a failure or a genuine resolution ends the pass after this one call with nothing requeued, a failure being thrown as it is; any other answer goes on to the rest of the queue, one entry further |
| ChainSearch.Scan | subprojects/dependency-management/src/main/java/org/gradle/api/internal/artifacts/ivyservice/ivyresolve/RepositoryChainComponentMetaDataResolver.java:121-149 | a scan resolves at least one entry of a non-empty queue and at most all of them, requeues no more states than it resolved, and resolves every entry when it returns nothing |
| ChainSearch.ScanStopsAt | subprojects/dependency-management/src/main/java/org/gradle/api/internal/artifacts/ivyservice/ivyresolve/RepositoryChainComponentMetaDataResolver.java:127-140 | at the first failure or genuine resolution the scan resolves exactly the entries up to it, throws that failure or returns that resolution (even when a placeholder came before), and its missing list is the reference list of the earlier entries |
| ChainSearch.ScanWithoutStop | subprojects/dependency-management/src/main/java/org/gradle/api/internal/artifacts/ivyservice/ivyresolve/RepositoryChainComponentMetaDataResolver.java:123-148 | without failure or genuine resolution the scan resolves every entry and returns; its missing list is the reference list; it returns nothing exactly when no placeholder was met, and otherwise a placeholder |
| ChainSearch.ScanFirstPlaceholder | subprojects/dependency-management/src/main/java/org/gradle/api/internal/artifacts/ivyservice/ivyresolve/RepositoryChainComponentMetaDataResolver.java:136-148 | without failure or genuine resolution the first placeholder in queue order is the result; later ones never replace it |
| ChainSearch.ScanFoundNothing | subprojects/dependency-management/src/main/java/org/gradle/api/internal/artifacts/ivyservice/ivyresolve/RepositoryChainComponentMetaDataResolver.java:122-148 | a scan returns nothing only when every entry answered Missing |
| ChainSearch.ProgressStep | subprojects/dependency-management/src/main/java/org/gradle/api/internal/artifacts/ivyservice/ivyresolve/RepositoryChainComponentMetaDataResolver.java:123-146 | one loop iteration that does not stop keeps the scan's result: the first placeholder kept so far wins, and a requeued state is appended to the missing list |
| ChainSearch.RequeuedAppend | subprojects/dependency-management/src/main/java/org/gradle/api/internal/artifacts/ivyservice/ivyresolve/RepositoryChainComponentMetaDataResolver.java:130-134 | the missing list grows at its end, in scan order |
| ChainSearch.RequeuedMembers | subprojects/dependency-management/src/main/java/org/gradle/api/internal/artifacts/ivyservice/ivyresolve/RepositoryChainComponentMetaDataResolver.java:130-134 | a state is on the missing list exactly when it answered Missing and could make further attempts; states that could not are dropped |
| ChainSearch.TwoPass | subprojects/dependency-management/src/main/java/org/gradle/api/internal/artifacts/ivyservice/ivyresolve/RepositoryChainComponentMetaDataResolver.java:103-119 | the local pass is the scan of the chain; the remote pass runs exactly when the local pass returned nothing, over its missing list, and then its outcome is the search's; without a remote pass the local outcome stands and is never "nothing found" |
| ChainSearch.LocalOnlyCalls | subprojects/dependency-management/src/main/java/org/gradle/api/internal/artifacts/ivyservice/ivyresolve/RepositoryChainComponentMetaDataResolver.java:110-113 | without a remote pass, each state of a fresh chain is asked once if the local pass reached it and never otherwise |
| ChainSearch.RemotePassCalls | subprojects/dependency-management/src/main/java/org/gradle/api/internal/artifacts/ivyservice/ivyresolve/RepositoryChainComponentMetaDataResolver.java:115-118 | with a remote pass, every state was asked once locally and at most once more, and a second call only for a state that answered Missing and could retry; when the search finds nothing, every such state was asked the second time |
| ChainSearch.FailureAbortsSearch | subprojects/dependency-management/src/main/java/org/gradle/api/internal/artifacts/ivyservice/ivyresolve/RepositoryChainComponentMetaDataResolver.java:127-129 | a local failure before any genuine hit is the search's outcome; no remote pass runs, and on fresh states each state up to the failing one is asked once and no later state is asked |
| ChainSearch.LocalHitPreempts | subprojects/dependency-management/src/main/java/org/gradle/api/internal/artifacts/ivyservice/ivyresolve/RepositoryChainComponentMetaDataResolver.java:110-113 | a genuine local hit before any failure is the outcome; no remote pass runs, and on fresh states each state up to the hit is asked once and no later state is asked |
| ChainSearch.LocalPlaceholderSkipsRemote | subprojects/dependency-management/src/main/java/org/gradle/api/internal/artifacts/ivyservice/ivyresolve/RepositoryChainComponentMetaDataResolver.java:110-113 | a local pass that met only placeholders and Missing answers returns its first placeholder, and the remote pass is skipped even when states are waiting on the missing list; on fresh states every state is asked exactly once |
| ChainSearch.RemotePassQueue | subprojects/dependency-management/src/main/java/org/gradle/api/internal/artifacts/ivyservice/ivyresolve/RepositoryChainComponentMetaDataResolver.java:115-118 | when the local pass found nothing, the remote pass scans exactly the reference missing list, starting empty, and its outcome is the search's |
| ChainSearch.AllMissingFindsNothing | subprojects/dependency-management/src/main/java/org/gradle/api/internal/artifacts/ivyservice/ivyresolve/RepositoryChainComponentMetaDataResolver.java:103-119 | when every state answers Missing locally and remotely, the remote pass runs and the search finds nothing; on fresh states a state is asked twice if it could retry and once otherwise |
| ChainSearch.RemoteOnlyAfterLocalMissing | subprojects/dependency-management/src/main/java/org/gradle/api/internal/artifacts/ivyservice/ivyresolve/RepositoryChainComponentMetaDataResolver.java:130-134 | on fresh states, a state is asked remotely only after exactly one local call that answered Missing with further attempts possible |
| ChainSearch.Fresh | subprojects/dependency-management/src/main/java/org/gradle/api/internal/artifacts/ivyservice/ivyresolve/RepositoryChainComponentMetaDataResolver.java:82-85 | one state per repository, in chain order, none asked yet |
| ChainSearch.AttemptsOf | subprojects/dependency-management/src/main/java/org/gradle/api/internal/artifacts/ivyservice/ivyresolve/RepositoryChainComponentMetaDataResolver.java:90-92 | one attempt per repository, in chain order |
| ChainSearch.Report | subprojects/dependency-management/src/main/java/org/gradle/api/internal/artifacts/ivyservice/ivyresolve/RepositoryChainComponentMetaDataResolver.java:88-99 | what a module resolution reports ends with a verdict; a failure wraps the module's identifier, not-found names it, and only not-found is preceded by other events |
| ChainSearch.ReportHasOneVerdict | subprojects/dependency-management/src/main/java/org/gradle/api/internal/artifacts/ivyservice/ivyresolve/RepositoryChainComponentMetaDataResolver.java:87-100 | exactly one verdict is reported, last; it is not-found exactly when the search found nothing, and then every repository's attempt precedes it |
| ChainSearch.FirstRepositoryFailure | subprojects/dependency-management/src/main/java/org/gradle/api/internal/artifacts/ivyservice/ivyresolve/RepositoryChainComponentMetaDataResolver.java:98-99 | a failure of the first repository is reported as the only event, wrapping the identifier and the cause; only the first repository's state is asked, and only once |

## Left out

- Logging, the versioned component chooser handed to each resolve state, and
  the metadata factory's `transform`. The result receives the resolution the
  search found, untransformed.
- What a resolve state and the repository accesses do inside. They are the
  `respond` and `estimate` oracles. That covers the local and remote lookups
  and the cost classes beyond fast, expensive and neither.
- The `IllegalStateException` branch for an unknown result state. The
  three-case answer type has no fourth state.
- Exceptions thrown outside a resolve step are not modelled: by
  `applyTo`, `transform` or the result object. Only step failures reach the
  catch clause.
- `applyTo` is modelled as recording one attempt event. What the state
  actually copies into the result is not shown.
- The exception types thrown by a failing step are not modelled. A failure
  is a value carried unchanged into the wrapping exception.
- Concurrent `resolve` calls sharing the chain are not modelled.
- `ChainResolver.RepositoryChainResolver.FindBestMatchInQueue` is framed by
  a ghost set, `scope`, that holds every state of the current search. Its
  contract gives the new call count of every state in the ghost sequence
  `states`, not of other members of `scope`. `FindBestMatch` passes the
  same states as both, so its own contract covers every state it may
  change.
