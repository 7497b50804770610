/**
 The repository-chain metadata resolver and the objects it works with. The
 chain keeps its repositories and their names in two parallel lists. A call
 to `Resolve` builds one `ResolveState` per repository, runs the local pass
 and, when that found nothing, the remote pass, and reports the outcome to a
 `ComponentResolveResult`. Every method is proved against the value-level
 search of module ChainSearch.
 */
module ChainResolver {
  import opened Components
  import opened ChainSearch

  /**
   The per-repository state of one resolve call. Its repository's script says
   what each successive `Resolve` call answers; `calls` counts the calls made.
   The ghost `slot` is the state's position in the chain.
   */
  class ResolveState {
    const repository: Repository
    const script: seq<Step>
    ghost const slot: nat
    var calls: nat

    constructor (id: ModuleComponentId, overrides: OverrideMetadata, repository: Repository, ghost slot: nat)
      ensures this.repository == repository && script == repository.respond(id, overrides)
      ensures this.slot == slot && calls == 0
    {
      this.repository := repository;
      script := repository.respond(id, overrides);
      this.slot := slot;
      calls := 0;
    }

    ghost function View(): StateView
      reads this
    {
      StateView(repository, script, calls, slot)
    }

    /** Whether a further `Resolve` call can still find something. */
    predicate CanMakeFurtherAttempts(): (b: bool)
      reads this
      ensures b <==> 0 < calls && Answer(script, calls - 1).furtherAttempts
    {
      0 < calls <= |script| && script[calls - 1].furtherAttempts
    }

    /** Runs the next phase of this state and moves it one phase on. */
    method Resolve() returns (r: StepResult)
      modifies this
      ensures calls == old(calls) + 1
      ensures r == Answer(script, old(calls)).result
      ensures CanMakeFurtherAttempts() == Answer(script, old(calls)).furtherAttempts
    {
      r := Answer(script, calls).result;
      calls := calls + 1;
    }

    /** Records this state's attempt in the result. */
    method ApplyTo(result: ComponentResolveResult)
      modifies result
      ensures result.events == old(result.events) + [Attempted(repository.name)]
    {
      result.AddAttempt(repository.name);
    }
  }

  /** The result object a resolve call reports to, as the log of what was reported. */
  class ComponentResolveResult {
    var events: seq<ResultEvent>

    constructor ()
      ensures events == []
    {
      events := [];
    }

    method AddAttempt(repositoryName: string)
      modifies this
      ensures events == old(events) + [Attempted(repositoryName)]
    {
      events := events + [Attempted(repositoryName)];
    }

    method MarkResolved(resolution: Resolution)
      modifies this
      ensures events == old(events) + [ReportedResolved(resolution)]
    {
      events := events + [ReportedResolved(resolution)];
    }

    method MarkNotFound(id: ModuleComponentId)
      modifies this
      ensures events == old(events) + [ReportedNotFound(id)]
    {
      events := events + [ReportedNotFound(id)];
    }

    method MarkFailed(error: ModuleVersionResolveException)
      modifies this
      ensures events == old(events) + [ReportedFailed(error)]
    {
      events := events + [ReportedFailed(error)];
    }
  }

  /** No state occurs twice in the sequence. */
  ghost predicate Distinct(q: seq<ResolveState>)
  {
    forall a, b :: 0 <= a < b < |q| ==> q[a] != q[b]
  }

  /** The current views of a sequence of states. */
  ghost function Views(q: seq<ResolveState>): (vs: seq<StateView>)
    reads q
    ensures |vs| == |q| && forall j :: 0 <= j < |q| ==> vs[j] == q[j].View()
  {
    seq(|q|, j requires 0 <= j < |q| reads q => q[j].View())
  }

  /** The states are, field by field, at the given views, and each sits at its own slot of `states`. */
  ghost predicate Mirrors(q: seq<ResolveState>, vs: seq<StateView>, states: seq<ResolveState>)
    reads q
  {
    |q| == |vs| &&
    forall j :: 0 <= j < |q| ==>
      q[j].repository == vs[j].repository && q[j].script == vs[j].script && q[j].calls == vs[j].calls &&
      q[j].slot == vs[j].slot && q[j].slot < |states| && states[q[j].slot] == q[j]
  }

  /** States sitting at their own positions are at their current views. */
  lemma MirrorsViews(q: seq<ResolveState>)
    requires forall j :: 0 <= j < |q| ==> q[j].slot == j
    ensures Mirrors(q, Views(q), q)
  {
  }

  /**
   Taking the head off a queue whose states are distinct together with the
   missing list `missing + added` in front of it: the head differs from the
   other states of the queue and from the states `added`, and what is left
   is still distinct, whether or not the head goes on the missing list.
   */
  lemma DistinctPop(missing: seq<ResolveState>, added: seq<ResolveState>, queue: seq<ResolveState>)
    requires queue != [] && Distinct((missing + added) + queue)
    ensures forall k :: 0 <= k < |added| ==> added[k] != queue[0]
    ensures forall j :: 1 <= j < |queue| ==> queue[j] != queue[0]
    ensures Distinct((missing + added) + queue[1..])
    ensures Distinct(((missing + added) + [queue[0]]) + queue[1..])
  {
    var front := missing + added;
    var s := front + queue;
    assert s[|front|] == queue[0];
    forall k | 0 <= k < |added|
      ensures added[k] != queue[0]
    {
      assert s[|missing| + k] == added[k];
    }
    forall j | 1 <= j < |queue|
      ensures queue[j] != queue[0]
    {
      assert s[|front| + j] == queue[j];
    }
    var t := front + queue[1..];
    forall a, b | 0 <= a < b < |t|
      ensures t[a] != t[b]
    {
      var a' := if a < |front| then a else a + 1;
      var b' := if b < |front| then b else b + 1;
      assert t[a] == s[a'] && t[b] == s[b'];
    }
    assert (front + [queue[0]]) + queue[1..] == s;
  }

  /** The states put on the missing list are distinct when they are distinct together with the queue. */
  lemma DistinctPrefix(added: seq<ResolveState>, queue: seq<ResolveState>)
    requires Distinct(added + queue)
    ensures Distinct(added)
  {
    forall a, b | 0 <= a < b < |added|
      ensures added[a] != added[b]
    {
      assert (added + queue)[a] == added[a] && (added + queue)[b] == added[b];
    }
  }

  /**
   An expensive estimate comes before any fast one: the first repository whose
   estimate is not normal is expensive.
   */
  ghost predicate ExpensiveFirst(repositories: seq<Repository>, id: ModuleComponentId): (b: bool)
    ensures b ==> repositories != [] && repositories[0].estimate(id) != Fast
    ensures (forall j :: 0 <= j < |repositories| ==> repositories[j].estimate(id) != Expensive) ==> !b
  {
    exists k :: 0 <= k < |repositories| && repositories[k].estimate(id) == Expensive &&
      forall j :: 0 <= j < k ==> repositories[j].estimate(id) == Normal
  }

  class RepositoryChainResolver {
    var repositories: seq<Repository>
    var repositoryNames: seq<string>

    /** The name list is the repositories' names, position by position. */
    ghost predicate Valid()
      reads this
    {
      |repositoryNames| == |repositories| &&
      forall j :: 0 <= j < |repositories| ==> repositoryNames[j] == repositories[j].name
    }

    constructor ()
      ensures Valid() && repositories == [] && repositoryNames == []
    {
      repositories := [];
      repositoryNames := [];
    }

    /** Appends a repository at the end of the chain, and its name at the end of the names. */
    method Add(repository: Repository)
      requires Valid()
      modifies this
      ensures Valid()
      ensures repositories == old(repositories) + [repository]
      ensures repositoryNames == old(repositoryNames) + [repository.name]
    {
      repositories := repositories + [repository];
      repositoryNames := repositoryNames + [repository.name];
    }

    /**
     Whether metadata fetching can be assumed cheap: the first repository whose
     estimate is fast or expensive decides, and with none (or for an identifier
     that is not a module) the answer is yes.
     */
    method IsFetchingMetadataCheap(identifier: ComponentId) returns (cheap: bool)
      ensures identifier.OtherComponent? ==> cheap
      ensures identifier.ModuleComponent? ==> (cheap <==> !ExpensiveFirst(repositories, identifier.id))
    {
      if identifier.ModuleComponent? {
        var id := identifier.id;
        for i := 0 to |repositories|
          invariant forall j :: 0 <= j < i ==> repositories[j].estimate(id) == Normal
        {
          var fetchingCost := repositories[i].estimate(id);
          if fetchingCost.Fast? {
            return true;
          } else if fetchingCost.Expensive? {
            return false;
          }
        }
      }
      return true;
    }

    /**
     Resolves the metadata of a component. An identifier that is not a module
     is refused by throwing, before any repository is touched and without
     touching the result; otherwise the result receives the module's report.
     */
    method Resolve(identifier: ComponentId, overrides: OverrideMetadata, result: ComponentResolveResult)
      returns (completion: Completion)
      modifies result
      ensures completion.ThrewUnsupportedOperation? <==> identifier.OtherComponent?
      ensures identifier.OtherComponent? ==> result.events == old(result.events)
      ensures identifier.ModuleComponent? ==>
        result.events == old(result.events) + Report(repositories, identifier.id, overrides)
    {
      if !identifier.ModuleComponent? {
        return ThrewUnsupportedOperation;
      }
      ResolveModule(identifier.id, overrides, result);
      return Completed;
    }

    /** One fresh resolve state per repository, in chain order. */
    method NewResolveStates(id: ModuleComponentId, overrides: OverrideMetadata) returns (resolveStates: seq<ResolveState>)
      ensures |resolveStates| == |repositories|
      ensures forall j :: 0 <= j < |repositories| ==> fresh(resolveStates[j]) && resolveStates[j].repository == repositories[j]
      ensures Views(resolveStates) == Fresh(repositories, id, overrides)
      ensures Distinct(resolveStates)
    {
      ghost var chain := Fresh(repositories, id, overrides);
      resolveStates := [];
      for i := 0 to |repositories|
        invariant |resolveStates| == i
        invariant forall j :: 0 <= j < i ==> fresh(resolveStates[j]) && resolveStates[j].View() == chain[j]
        invariant forall j :: 0 <= j < i ==> resolveStates[j].repository == repositories[j]
        invariant Distinct(resolveStates)
      {
        var state := new ResolveState(id, overrides, repositories[i], i);
        resolveStates := resolveStates + [state];
      }
      assert Views(resolveStates) == chain;
    }

    /**
     Builds one resolve state per repository in chain order, runs the search
     and reports exactly one verdict: the failure, the resolution, or, after
     every state's attempt, not-found.
     */
    method ResolveModule(id: ModuleComponentId, overrides: OverrideMetadata, result: ComponentResolveResult)
      modifies result
      ensures result.events == old(result.events) + Report(repositories, id, overrides)
    {
      ghost var chain := Fresh(repositories, id, overrides);
      var resolveStates := NewResolveStates(id, overrides);
      var latestResolved := FindBestMatch(resolveStates);
      assert latestResolved == TwoPass(chain).outcome;
      match latestResolved
      case Threw(failure) =>
        result.MarkFailed(ModuleVersionResolveException(id, failure));
      case Returned(None) =>
        ApplyAll(resolveStates, result);
        result.MarkNotFound(id);
      case Returned(Some(resolution)) =>
        result.MarkResolved(resolution);
    }

    /** Every state, in chain order, records its attempt on the result. */
    method ApplyAll(resolveStates: seq<ResolveState>, result: ComponentResolveResult)
      requires |resolveStates| == |repositories|
      requires forall j :: 0 <= j < |repositories| ==> resolveStates[j].repository == repositories[j]
      modifies result
      ensures result.events == old(result.events) + AttemptsOf(repositories)
    {
      for i := 0 to |resolveStates|
        invariant result.events == old(result.events) + AttemptsOf(repositories[..i])
      {
        resolveStates[i].ApplyTo(result);
        assert AttemptsOf(repositories[..i + 1]) == AttemptsOf(repositories[..i]) + [Attempted(repositories[i].name)];
      }
      assert repositories[..|resolveStates|] == repositories;
    }

    /**
     The two-pass search: a local pass over every state; only when it found
     nothing, a remote pass over the states it left on the missing list. Each
     state is called exactly as often as that search asks it.
     */
    method FindBestMatch(resolveStates: seq<ResolveState>) returns (best: PassOutcome)
      requires Distinct(resolveStates)
      requires forall j :: 0 <= j < |resolveStates| ==> resolveStates[j].slot == j
      modifies resolveStates
      ensures best == TwoPass(old(Views(resolveStates))).outcome
      ensures forall j :: 0 <= j < |resolveStates| ==>
        resolveStates[j].calls == old(resolveStates[j].calls) + CallsMade(old(Views(resolveStates)), j)
    {
      ghost var chain := Views(resolveStates);
      MirrorsViews(resolveStates);
      ghost var scope := set j | 0 <= j < |resolveStates| :: resolveStates[j];
      var queue := resolveStates;
      var missing: seq<ResolveState> := [];

      // The local pass
      best, missing := FindBestMatchInQueue(queue, missing, chain, resolveStates, scope);
      if best.Threw? || best.best.Some? {
        return;
      }

      // Nothing found locally: a remote pass over the states not yet searched remotely
      assert missing[0..] == missing;
      queue := missing;
      missing := [];
      best, missing := FindBestMatchInQueue(queue, missing, Scan(chain).missing, resolveStates, scope);
    }

    /**
     Resolves one entry of a queue, at the view `v`, and sorts its answer: a
     failure or a genuine resolution stops the scan with that outcome, a
     Missing answer from a state that can make further attempts requeues it,
     and a placeholder resolution is a candidate best match.
     */
    method ResolveEntry(request: ResolveState, ghost v: StateView)
      returns (stop: Option<PassOutcome>, requeue: bool, placeholder: Option<Resolution>)
      requires request.repository == v.repository && request.script == v.script && request.calls == v.calls
      modifies request
      ensures request.calls == v.calls + 1
      ensures stop.Some? <==> Stops(Next(v).result)
      ensures stop.Some? ==> stop.value == StepInto(v, Scan([])).outcome
      ensures requeue <==> Requeues(v)
      ensures placeholder.Some? <==> Placeholder(Next(v).result)
      ensures placeholder.Some? ==> placeholder.value == ResolutionOf(v)
    {
      stop, requeue, placeholder := None, false, None;
      var state := request.Resolve();
      match state {
      case Failed(failure) =>
        stop := Some(Threw(failure));
      case Missing =>
        requeue := request.CanMakeFurtherAttempts();
      case Resolved(metadata) =>
        var moduleResolution := Resolution(request.repository, metadata);
        if !metadata.isMissing {
          stop := Some(Returned(Some(moduleResolution)));
        } else {
          placeholder := Some(moduleResolution);
        }
      }
    }

    /**
     One scan of a queue whose states start at the views `v0`: takes the
     states off the front of the queue one by one and resolves each. A
     failure is thrown at once, a Missing answer appends the state to the
     missing list when it can make further attempts, a genuine resolution is
     returned at once, and the first placeholder resolution is kept as the
     best match. `states` holds every state of the search at its slot; each
     has had one call more for each of its queue entries the scan resolved.
     */
    method FindBestMatchInQueue(queue: seq<ResolveState>, missing: seq<ResolveState>, ghost v0: seq<StateView>,
                                ghost states: seq<ResolveState>, ghost scope: set<ResolveState>)
      returns (best: PassOutcome, missingAfter: seq<ResolveState>)
      requires Distinct(missing + queue) && Mirrors(queue, v0, states)
      requires forall j :: 0 <= j < |states| ==> states[j].slot == j && states[j] in scope
      modifies scope
      ensures best == Scan(v0).outcome
      ensures forall j :: 0 <= j < |states| ==> states[j].calls == old(states[j].calls) + Asks(Asked(v0), j)
      ensures |missingAfter| >= |missing| && missingAfter[..|missing|] == missing
      ensures Mirrors(missingAfter[|missing|..], Scan(v0).missing, states)
      ensures Distinct(missingAfter)
    {
      var pending := queue;
      ghost var rest := v0;
      ghost var added: seq<ResolveState> := [];
      ghost var addedViews: seq<StateView> := [];
      ghost var tally: seq<nat> := seq(|states|, _ => 0);
      var found: Option<Resolution> := None;
      missingAfter := missing;
      assert missing + added == missing;
      ProgressStart(v0);
      CountedStart(v0, |states|);
      while pending != []
        invariant Mirrors(pending, rest, states) && Mirrors(added, addedViews, states)
        invariant Distinct(missingAfter + pending)
        invariant missingAfter == missing + added
        invariant Progress(v0, found, addedViews, rest)
        invariant |tally| == |states| && Counted(v0, rest, tally)
        invariant forall j {:trigger tally[j]} :: 0 <= j < |states| ==> states[j].calls == old(states[j].calls) + tally[j]
      {
        var request := pending[0];
        ghost var v := rest[0];
        DistinctPop(missing, added, pending);
        var stop, requeue, placeholder := ResolveEntry(request, v);
        if stop.Some? {
          ProgressStop(v0, found, addedViews, rest);
          CountedStop(v0, rest, tally);
          assert missingAfter[|missing|..] == added;
          DistinctPrefix(missingAfter, pending);
          return stop.value, missingAfter;
        }
        ProgressStep(v0, found, addedViews, rest);
        CountedStep(v0, rest, tally);
        pending, rest, tally := pending[1..], rest[1..], tally[v.slot := tally[v.slot] + 1];
        if requeue {
          missingAfter := missingAfter + [request];
          added, addedViews := added + [request], addedViews + [Advance(v)];
        }
        if found.None? {
          found := placeholder;
        }
      }
      ProgressEnd(v0, found, addedViews);
      CountedEnd(v0, tally);
      assert missingAfter[|missing|..] == added;
      DistinctPrefix(missingAfter, pending);
      best := Returned(found);
    }
  }
}
