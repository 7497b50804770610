/**
 The search over a repository chain, as values. A queue entry is seen through
 a `StateView`: its repository, the script its resolve state plays back, and
 how many `resolve()` calls it has had. `Scan` is one pass over a queue,
 `TwoPass` the local pass followed, when it found nothing, by the remote pass
 over the entries it put on the missing list. `Report` is what the resolver
 reports for a module identifier. The methods in Chain.dfy are proved against
 these functions; the lemmas here state what the functions guarantee.
 */
module ChainSearch {
  import opened Components

  /**
   A resolve state at one moment: its repository, its script, the calls made
   so far, and its position in the chain (`slot`), which tells the states of
   one search apart.
   */
  datatype StateView = StateView(repository: Repository, script: seq<Step>, calls: nat, slot: nat)

  /** What the state's next `resolve()` call answers. */
  function Next(v: StateView): Step
  {
    Answer(v.script, v.calls)
  }

  /** The state after one more `resolve()` call. */
  function Advance(v: StateView): StateView
  {
    v.(calls := v.calls + 1)
  }

  /** A scan either threw the failure of a step or returned its best match (none = null). */
  datatype PassOutcome = Threw(cause: Failure) | Returned(best: Option<Resolution>)

  /**
   One scan: its outcome, the states it put on the missing list (as they are
   after their call), and how many queue entries it resolved.
   */
  datatype Pass = Pass(outcome: PassOutcome, missing: seq<StateView>, consumed: nat)

  /** The outcome after a placeholder `here` was remembered before the rest of the scan produced `later`. */
  function KeepFirst(here: Resolution, later: PassOutcome): (o: PassOutcome)
    ensures o.Threw? <==> later.Threw?
    ensures o.Returned? ==> o.best.Some?
    ensures o.Returned? && o.best.value.metadata.isMissing ==> o.best.value == here
    ensures o.Returned? && o.best.value != here ==> o == later
  {
    match later
    case Threw(_) => later
    case Returned(None) => Returned(Some(here))
    case Returned(Some(r)) => if r.metadata.isMissing then Returned(Some(here)) else later
  }

  /** The outcome of a scan that has kept `found` as its best match so far and goes on to the outcome `later` of the rest. */
  function Resume(found: Option<Resolution>, later: PassOutcome): PassOutcome
  {
    if found.Some? then KeepFirst(found.value, later) else later
  }

  /**
   The pass over a queue whose head is `v`, given the pass `rest` over the
   entries behind it. A failure ends the pass by throwing, a genuine resolution
   ends it by returning that resolution; otherwise the rest is scanned too: a
   missing answer moves the state to the missing list when it can make further
   attempts, and a placeholder resolution is the best match unless the rest
   ends with a genuine one or a failure.
   */
  function StepInto(v: StateView, rest: Pass): (p: Pass)
    ensures Stops(Next(v).result) ==> p.consumed == 1 && p.missing == []
    ensures Next(v).result.Failed? ==> p.outcome == Threw(Next(v).result.failure)
    ensures !Stops(Next(v).result) ==> p.consumed == rest.consumed + 1
  {
    match Next(v).result
    case Failed(cause) => Pass(Threw(cause), [], 1)
    case Missing =>
      var requeued := if Next(v).furtherAttempts then [Advance(v)] else [];
      Pass(rest.outcome, requeued + rest.missing, rest.consumed + 1)
    case Resolved(m) =>
      var here := Resolution(v.repository, m);
      if !m.isMissing then Pass(Returned(Some(here)), [], 1)
      else Pass(KeepFirst(here, rest.outcome), rest.missing, rest.consumed + 1)
  }

  /** One pass of the queue scan, entry by entry in queue order. */
  function Scan(q: seq<StateView>): (p: Pass)
    ensures p.consumed <= |q|
    ensures q != [] ==> 1 <= p.consumed
    ensures |p.missing| <= p.consumed
    ensures p.outcome == Returned(None) ==> p.consumed == |q|
    decreases |q|
  {
    if q == [] then Pass(Returned(None), [], 0)
    else StepInto(q[0], Scan(q[1..]))
  }

  /**
   Part way through a scan of `v0`: the entries `rest` are still to come, and
   the entries already resolved kept `found` as the best match and put the
   states `added` on the missing list. Finishing the scan of `rest` then gives
   the scan of `v0`.
   */
  ghost predicate Progress(v0: seq<StateView>, found: Option<Resolution>, added: seq<StateView>, rest: seq<StateView>)
  {
    Scan(v0).outcome == Resume(found, Scan(rest).outcome) && Scan(v0).missing == added + Scan(rest).missing
  }

  /** Before the first entry nothing is found or added. */
  lemma ProgressStart(v0: seq<StateView>)
    ensures Progress(v0, None, [], v0)
  {
  }

  /**
   Resolving the next entry without stopping the scan keeps the first
   placeholder and adds the entry when it requeues.
   */
  lemma ProgressStep(v0: seq<StateView>, found: Option<Resolution>, added: seq<StateView>, rest: seq<StateView>)
    requires Progress(v0, found, added, rest) && rest != [] && !Stops(Next(rest[0]).result)
    ensures Progress(v0,
      if found.None? && Placeholder(Next(rest[0]).result) then Some(ResolutionOf(rest[0])) else found,
      if Requeues(rest[0]) then added + [Advance(rest[0])] else added,
      rest[1..])
  {
    var v := rest[0];
    if Requeues(v) {
      assert added + ([Advance(v)] + Scan(rest[1..]).missing) == (added + [Advance(v)]) + Scan(rest[1..]).missing;
    }
  }

  /** A failure or a genuine resolution at the next entry is the outcome of the whole scan. */
  lemma ProgressStop(v0: seq<StateView>, found: Option<Resolution>, added: seq<StateView>, rest: seq<StateView>)
    requires Progress(v0, found, added, rest) && rest != [] && Stops(Next(rest[0]).result)
    ensures Scan(v0).outcome == StepInto(rest[0], Scan([])).outcome
    ensures Scan(v0).missing == added
  {
  }

  /** Once every entry is resolved the scan returns the placeholder kept, if any. */
  lemma ProgressEnd(v0: seq<StateView>, found: Option<Resolution>, added: seq<StateView>)
    requires Progress(v0, found, added, [])
    ensures Scan(v0).outcome == Returned(found)
    ensures Scan(v0).missing == added
  {
  }

  /** The entries a scan resolves, in queue order: all of them, or those up to the one that stopped it. */
  function Asked(q: seq<StateView>): seq<StateView>
  {
    q[..Scan(q).consumed]
  }

  /**
   Part way through a scan of `v0`, with the entries `rest` still to come: the
   entries already resolved asked slot `j` `tally[j]` times.
   */
  ghost predicate Counted(v0: seq<StateView>, rest: seq<StateView>, tally: seq<nat>)
  {
    forall j {:trigger Asks(Asked(rest), j)} :: 0 <= j < |tally| ==> Asks(Asked(v0), j) == tally[j] + Asks(Asked(rest), j)
  }

  /** Before the first entry no slot was asked. */
  lemma CountedStart(v0: seq<StateView>, n: nat)
    ensures Counted(v0, v0, seq(n, _ => 0))
  {
  }

  /** Asking `v` first and then the entries `q` asks the slot of `v` once more than `q` alone. */
  lemma AsksCons(v: StateView, q: seq<StateView>)
    ensures forall j :: Asks([v] + q, j) == (if v.slot == j then 1 else 0) + Asks(q, j)
  {
    assert ([v] + q)[1..] == q;
  }

  /** Resolving the next entry without stopping the scan counts one call at its slot. */
  lemma CountedStep(v0: seq<StateView>, rest: seq<StateView>, tally: seq<nat>)
    requires Counted(v0, rest, tally) && rest != [] && !Stops(Next(rest[0]).result) && rest[0].slot < |tally|
    ensures Counted(v0, rest[1..], tally[rest[0].slot := tally[rest[0].slot] + 1])
  {
    var v := rest[0];
    assert Asked(rest) == [v] + Asked(rest[1..]);
    AsksCons(v, Asked(rest[1..]));
  }

  /** A stop at the next entry makes its call the last one of the scan. */
  lemma CountedStop(v0: seq<StateView>, rest: seq<StateView>, tally: seq<nat>)
    requires Counted(v0, rest, tally) && rest != [] && Stops(Next(rest[0]).result) && rest[0].slot < |tally|
    ensures forall j :: 0 <= j < |tally| ==> Asks(Asked(v0), j) == tally[rest[0].slot := tally[rest[0].slot] + 1][j]
  {
    assert Asked(rest) == [rest[0]] + [];
    AsksCons(rest[0], []);
    forall j | 0 <= j < |tally| ensures Asks(Asked(v0), j) == tally[rest[0].slot := tally[rest[0].slot] + 1][j] {
      assert Asks(Asked(v0), j) == tally[j] + Asks(Asked(rest), j);
    }
  }

  /** Once every entry is resolved the tally is the scan's count of calls. */
  lemma CountedEnd(v0: seq<StateView>, tally: seq<nat>)
    requires Counted(v0, [], tally)
    ensures forall j :: 0 <= j < |tally| ==> Asks(Asked(v0), j) == tally[j]
  {
    forall j | 0 <= j < |tally| ensures Asks(Asked(v0), j) == tally[j] {
      assert Asks(Asked(v0), j) == tally[j] + Asks(Asked([]), j);
    }
  }

  /** Whether the step of state `v` puts it on the missing list: it answered Missing and can make further attempts. */
  predicate Requeues(v: StateView)
  {
    Next(v).result.Missing? && Next(v).furtherAttempts
  }

  /** Reference definition of the missing list: the states answering Missing that can retry, in queue order, after their call. */
  function Requeued(q: seq<StateView>): seq<StateView>
  {
    if q == [] then []
    else (if Requeues(q[0]) then [Advance(q[0])] else []) + Requeued(q[1..])
  }

  /** The missing list of a longer queue extends that of its prefix. */
  lemma {:induction false} RequeuedAppend(q: seq<StateView>, v: StateView)
    ensures Requeued(q + [v]) == Requeued(q) + if Requeues(v) then [Advance(v)] else []
  {
    if q != [] {
      assert (q + [v])[1..] == q[1..] + [v];
      RequeuedAppend(q[1..], v);
    }
  }

  /** The resolution produced by a Resolved step of state `v`. */
  function ResolutionOf(v: StateView): Resolution
    requires Next(v).result.Resolved?
  {
    Resolution(v.repository, Next(v).result.metadata)
  }

  /** A state is on the reference missing list exactly when it is, one call on, a queue entry that answered Missing and can retry. */
  lemma {:induction false} RequeuedMembers(q: seq<StateView>, w: StateView)
    ensures w in Requeued(q) <==>
      exists j :: 0 <= j < |q| && w == Advance(q[j]) && Next(q[j]).result.Missing? && Next(q[j]).furtherAttempts
  {
    if q != [] {
      RequeuedMembers(q[1..], w);
      if w in Requeued(q[1..]) {
        var j :| 0 <= j < |q[1..]| && w == Advance(q[1..][j]) && Next(q[1..][j]).result.Missing? && Next(q[1..][j]).furtherAttempts;
        assert q[j + 1] == q[1..][j];
      }
      forall j | 1 <= j < |q| && w == Advance(q[j]) && Next(q[j]).result.Missing? && Next(q[j]).furtherAttempts
        ensures w in Requeued(q[1..])
      {
        assert q[1..][j - 1] == q[j];
      }
    }
  }

  /**
   When the step at `k` is the first failure or genuine resolution, the scan
   resolves exactly the entries up to `k`, ends with that step's failure or
   resolution, and its missing list is the reference one of the entries before `k`.
   */
  lemma {:induction false} ScanStopsAt(q: seq<StateView>, k: nat)
    requires k < |q| && Stops(Next(q[k]).result)
    requires forall j :: 0 <= j < k ==> !Stops(Next(q[j]).result)
    ensures Scan(q).consumed == k + 1
    ensures Next(q[k]).result.Failed? ==> Scan(q).outcome == Threw(Next(q[k]).result.failure)
    ensures Next(q[k]).result.Resolved? ==> Scan(q).outcome == Returned(Some(ResolutionOf(q[k])))
    ensures Scan(q).missing == Requeued(q[..k])
  {
    if k > 0 {
      assert q[1..][k - 1] == q[k];
      forall j | 0 <= j < k - 1 ensures !Stops(Next(q[1..][j]).result) {
        assert q[1..][j] == q[j + 1];
      }
      ScanStopsAt(q[1..], k - 1);
      assert q[..k][1..] == q[1..][..k - 1];
    }
  }

  /**
   When no step fails or resolves genuinely, the scan resolves every entry,
   returns (never throws), and its missing list is the reference one.
   */
  lemma {:induction false} ScanWithoutStop(q: seq<StateView>)
    requires forall j :: 0 <= j < |q| ==> !Stops(Next(q[j]).result)
    ensures Scan(q).consumed == |q|
    ensures Scan(q).outcome.Returned?
    ensures Scan(q).missing == Requeued(q)
    ensures Scan(q).outcome.best.None? <==> forall j :: 0 <= j < |q| ==> !Placeholder(Next(q[j]).result)
    ensures Scan(q).outcome.best.Some? ==> Scan(q).outcome.best.value.metadata.isMissing
  {
    if q != [] {
      forall j | 0 <= j < |q| - 1 ensures !Stops(Next(q[1..][j]).result) {
        assert q[1..][j] == q[j + 1];
      }
      ScanWithoutStop(q[1..]);
      if !Placeholder(Next(q[0]).result) {
        forall j | 1 <= j < |q| && Placeholder(Next(q[j]).result)
          ensures !Scan(q[1..]).outcome.best.None?
        {
          assert q[1..][j - 1] == q[j];
        }
      }
    }
  }

  /**
   When no step fails or resolves genuinely, the first placeholder in queue
   order is the best match; later placeholders never replace it.
   */
  lemma {:induction false} ScanFirstPlaceholder(q: seq<StateView>, k: nat)
    requires forall j :: 0 <= j < |q| ==> !Stops(Next(q[j]).result)
    requires k < |q| && Placeholder(Next(q[k]).result)
    requires forall j :: 0 <= j < k ==> !Placeholder(Next(q[j]).result)
    ensures Scan(q).outcome == Returned(Some(ResolutionOf(q[k])))
  {
    if k > 0 {
      forall j | 0 <= j < |q| - 1 ensures !Stops(Next(q[1..][j]).result) {
        assert q[1..][j] == q[j + 1];
      }
      forall j | 0 <= j < k - 1 ensures !Placeholder(Next(q[1..][j]).result) {
        assert q[1..][j] == q[j + 1];
      }
      assert q[1..][k - 1] == q[k];
      ScanFirstPlaceholder(q[1..], k - 1);
    } else {
      forall j | 0 <= j < |q| - 1 ensures !Stops(Next(q[1..][j]).result) {
        assert q[1..][j] == q[j + 1];
      }
      ScanWithoutStop(q[1..]);
    }
  }

  /** Both passes of one search: the local pass, and the remote pass when it ran. */
  datatype SearchTrace = SearchTrace(outcome: PassOutcome, local: Pass, remote: Option<Pass>)

  /**
   The two-pass search: a local pass over the whole chain; only when it
   returned nothing, a remote pass over exactly the states it put on the
   missing list, starting with no best match.
   */
  function TwoPass(chain: seq<StateView>): (t: SearchTrace)
    ensures t.local == Scan(chain)
    ensures t.remote.Some? <==> t.local.outcome == Returned(None)
    ensures t.remote.Some? ==> t.remote.value == Scan(t.local.missing)
    ensures t.outcome == Returned(None) ==> t.remote.Some? && t.remote.value.outcome == Returned(None)
    ensures t.remote.Some? ==> t.outcome == t.remote.value.outcome
    ensures t.remote.None? ==> t.outcome == t.local.outcome && t.outcome != Returned(None)
  {
    var local := Scan(chain);
    if local.outcome.Returned? && local.outcome.best.None? then
      var remote := Scan(local.missing);
      SearchTrace(remote.outcome, local, Some(remote))
    else
      SearchTrace(local.outcome, local, None)
  }

  /** The entries' slots count up from `base` in queue order, as in a chain fresh from `Fresh`. */
  predicate TaggedFrom(q: seq<StateView>, base: nat)
  {
    forall i :: 0 <= i < |q| ==> q[i].slot == base + i
  }

  /** How many entries of `q` belong to the state in chain position `slot`. */
  function Asks(q: seq<StateView>, slot: nat): (n: nat)
    ensures n <= |q|
  {
    if q == [] then 0 else (if q[0].slot == slot then 1 else 0) + Asks(q[1..], slot)
  }

  /**
   How many times the two-pass search over `chain` calls `resolve()` on the
   state in chain position `slot`: once for each entry of that state that the
   local pass reached, and once for each the remote pass reached.
   */
  function CallsMade(chain: seq<StateView>, slot: nat): nat
  {
    var t := TwoPass(chain);
    Asks(Asked(chain), slot) + if t.remote.Some? then Asks(Asked(t.local.missing), slot) else 0
  }

  lemma {:induction false} AsksAppend(a: seq<StateView>, b: seq<StateView>, slot: nat)
    ensures Asks(a + b, slot) == Asks(a, slot) + Asks(b, slot)
  {
    if a == [] {
      assert a + b == b;
    } else {
      assert (a + b)[1..] == a[1..] + b;
      AsksAppend(a[1..], b, slot);
    }
  }

  /** A queue of distinct positions holds each of them once and nothing else. */
  lemma {:induction false} AsksTagged(q: seq<StateView>, base: nat, slot: nat)
    requires TaggedFrom(q, base)
    ensures Asks(q, slot) == if base <= slot < base + |q| then 1 else 0
  {
    if q != [] {
      forall i | 0 <= i < |q| - 1 ensures q[1..][i].slot == base + 1 + i {
        assert q[1..][i] == q[i + 1];
      }
      AsksTagged(q[1..], base + 1, slot);
    }
  }

  /** The reference missing list of positioned entries holds a position once exactly when its entry requeues. */
  lemma {:induction false} AsksRequeued(q: seq<StateView>, base: nat, slot: nat)
    requires TaggedFrom(q, base)
    ensures Asks(Requeued(q), slot) == if base <= slot < base + |q| && Requeues(q[slot - base]) then 1 else 0
  {
    if q != [] {
      forall i | 0 <= i < |q| - 1 ensures q[1..][i].slot == base + 1 + i {
        assert q[1..][i] == q[i + 1];
      }
      AsksRequeued(q[1..], base + 1, slot);
      AsksAppend(if Requeues(q[0]) then [Advance(q[0])] else [], Requeued(q[1..]), slot);
      if base + 1 <= slot < base + |q| {
        assert q[1..][slot - (base + 1)] == q[slot - base];
      }
    }
  }

  /** A prefix of a queue has no more entries of a state than the whole queue. */
  lemma {:induction false} AsksPrefix(q: seq<StateView>, c: nat, slot: nat)
    requires c <= |q|
    ensures Asks(q[..c], slot) <= Asks(q, slot)
  {
    if c > 0 {
      assert q[..c][1..] == q[1..][..c - 1];
      AsksPrefix(q[1..], c - 1, slot);
    }
  }

  /** Without a remote pass, each state of a fresh chain is asked once if the local pass reached it and never otherwise. */
  lemma {:induction false} LocalOnlyCalls(chain: seq<StateView>)
    requires TaggedFrom(chain, 0) && TwoPass(chain).remote.None?
    ensures forall j :: 0 <= j < |chain| ==> CallsMade(chain, j) == if j < Scan(chain).consumed then 1 else 0
  {
    var c := Scan(chain).consumed;
    forall j | 0 <= j < |chain| ensures CallsMade(chain, j) == if j < c then 1 else 0 {
      assert TaggedFrom(chain[..c], 0);
      AsksTagged(chain[..c], 0, j);
    }
  }

  /**
   When the remote pass runs, every state of the chain was asked once locally
   and is asked at most once more, and only if it answered Missing and could
   retry. When the search then finds nothing, every such state was asked
   remotely.
   */
  lemma RemotePassCalls(chain: seq<StateView>)
    requires TaggedFrom(chain, 0) && TwoPass(chain).remote.Some?
    ensures forall j :: 0 <= j < |chain| ==>
      1 <= CallsMade(chain, j) <= 2 && (CallsMade(chain, j) == 2 ==> Requeues(chain[j]))
    ensures TwoPass(chain).outcome == Returned(None) ==>
      forall j :: 0 <= j < |chain| ==> CallsMade(chain, j) == if Requeues(chain[j]) then 2 else 1
  {
    forall j | 0 <= j < |chain|
      ensures 1 <= CallsMade(chain, j) <= 2 && (CallsMade(chain, j) == 2 ==> Requeues(chain[j]))
      ensures TwoPass(chain).outcome == Returned(None) ==> CallsMade(chain, j) == if Requeues(chain[j]) then 2 else 1
    {
      RemotePassCallsAt(chain, j);
    }
  }

  /** `RemotePassCalls` for the state at one position `j`. */
  lemma RemotePassCallsAt(chain: seq<StateView>, j: nat)
    requires TaggedFrom(chain, 0) && TwoPass(chain).remote.Some? && j < |chain|
    ensures 1 <= CallsMade(chain, j) <= 2 && (CallsMade(chain, j) == 2 ==> Requeues(chain[j]))
    ensures TwoPass(chain).outcome == Returned(None) ==> CallsMade(chain, j) == if Requeues(chain[j]) then 2 else 1
  {
    ScanFoundNothing(chain);
    ScanWithoutStop(chain);
    var m := Scan(chain).missing;
    var c := Scan(m).consumed;
    assert chain[..|chain|] == chain;
    AsksTagged(chain, 0, j);
    AsksRequeued(chain, 0, j);
    AsksPrefix(m, c, j);
    if TwoPass(chain).outcome == Returned(None) {
      assert m[..c] == m;
    }
  }

  /** The first failure in the chain, before any genuine local hit, aborts the search: no later state and no remote pass is consulted. */
  lemma {:induction false} FailureAbortsSearch(chain: seq<StateView>, k: nat)
    requires k < |chain| && Next(chain[k]).result.Failed?
    requires forall j :: 0 <= j < k ==> !Stops(Next(chain[j]).result)
    ensures TwoPass(chain).outcome == Threw(Next(chain[k]).result.failure)
    ensures TwoPass(chain).local.consumed == k + 1 && TwoPass(chain).remote.None?
    ensures TaggedFrom(chain, 0) ==> forall j :: 0 <= j < |chain| ==> CallsMade(chain, j) == if j <= k then 1 else 0
  {
    ScanStopsAt(chain, k);
    if TaggedFrom(chain, 0) {
      LocalOnlyCalls(chain);
    }
  }

  /** A genuine local hit at `k` after only non-stopping answers is the result; later states and the remote pass are never consulted. */
  lemma {:induction false} LocalHitPreempts(chain: seq<StateView>, k: nat)
    requires k < |chain| && Next(chain[k]).result.Resolved? && !Next(chain[k]).result.metadata.isMissing
    requires forall j :: 0 <= j < k ==> !Stops(Next(chain[j]).result)
    ensures TwoPass(chain).outcome == Returned(Some(ResolutionOf(chain[k])))
    ensures TwoPass(chain).local.consumed == k + 1 && TwoPass(chain).remote.None?
    ensures TaggedFrom(chain, 0) ==> forall j :: 0 <= j < |chain| ==> CallsMade(chain, j) == if j <= k then 1 else 0
  {
    ScanStopsAt(chain, k);
    if TaggedFrom(chain, 0) {
      LocalOnlyCalls(chain);
    }
  }

  /**
   A local placeholder is returned without a remote pass, even when states
   remain that could be asked remotely; the first placeholder wins.
   */
  lemma {:induction false} LocalPlaceholderSkipsRemote(chain: seq<StateView>, k: nat)
    requires forall j :: 0 <= j < |chain| ==> !Stops(Next(chain[j]).result)
    requires k < |chain| && Placeholder(Next(chain[k]).result)
    requires forall j :: 0 <= j < k ==> !Placeholder(Next(chain[j]).result)
    ensures TwoPass(chain).outcome == Returned(Some(ResolutionOf(chain[k])))
    ensures TwoPass(chain).local.consumed == |chain| && TwoPass(chain).remote.None?
    ensures TaggedFrom(chain, 0) ==> forall j :: 0 <= j < |chain| ==> CallsMade(chain, j) == 1
  {
    ScanWithoutStop(chain);
    ScanFirstPlaceholder(chain, k);
    if TaggedFrom(chain, 0) {
      LocalOnlyCalls(chain);
    }
  }

  /**
   When the local pass meets neither a stop nor a placeholder, the remote pass
   runs over exactly the states answering Missing that can retry, in chain
   order, each after exactly one more call than it had at the start.
   */
  lemma {:induction false} RemotePassQueue(chain: seq<StateView>)
    requires forall j :: 0 <= j < |chain| ==> !Stops(Next(chain[j]).result) && !Placeholder(Next(chain[j]).result)
    ensures TwoPass(chain).remote == Some(Scan(Requeued(chain)))
    ensures TwoPass(chain).outcome == Scan(Requeued(chain)).outcome
    ensures forall w :: w in Scan(chain).missing <==>
      exists j :: 0 <= j < |chain| && w == Advance(chain[j]) && Next(chain[j]).result.Missing? && Next(chain[j]).furtherAttempts
  {
    ScanWithoutStop(chain);
    forall w ensures w in Scan(chain).missing <==>
      exists j :: 0 <= j < |chain| && w == Advance(chain[j]) && Next(chain[j]).result.Missing? && Next(chain[j]).furtherAttempts
    {
      RequeuedMembers(chain, w);
    }
  }

  /** Every state answers Missing locally and, when it can retry, Missing remotely: the search finds nothing. */
  lemma {:induction false} AllMissingFindsNothing(chain: seq<StateView>)
    requires forall j :: 0 <= j < |chain| ==> Next(chain[j]).result.Missing?
    requires forall j :: 0 <= j < |chain| && Next(chain[j]).furtherAttempts ==> Next(Advance(chain[j])).result.Missing?
    ensures TwoPass(chain).outcome == Returned(None)
    ensures TwoPass(chain).remote.Some?
    ensures TaggedFrom(chain, 0) ==>
      forall j :: 0 <= j < |chain| ==> CallsMade(chain, j) == if Next(chain[j]).furtherAttempts then 2 else 1
  {
    RemotePassQueue(chain);
    var r := Requeued(chain);
    forall i | 0 <= i < |r| ensures Next(r[i]).result.Missing? {
      RequeuedMembers(chain, r[i]);
    }
    ScanWithoutStop(r);
    if TaggedFrom(chain, 0) {
      RemotePassCalls(chain);
    }
  }

  /**
   On a fresh chain a state is asked remotely only after exactly one local
   call that answered Missing with further attempts possible, so no state is
   asked remotely twice and a local-only state is never asked remotely.
   */
  lemma {:induction false} RemoteOnlyAfterLocalMissing(chain: seq<StateView>, w: StateView)
    requires forall j :: 0 <= j < |chain| ==> chain[j].calls == 0
    requires TwoPass(chain).remote.Some?
    requires w in Scan(chain).missing
    ensures w.calls == 1
    ensures exists j :: 0 <= j < |chain| && w == Advance(chain[j]) && Next(chain[j]).result.Missing? && Next(chain[j]).furtherAttempts
  {
    ScanFoundNothing(chain);
    ScanWithoutStop(chain);
    RequeuedMembers(chain, w);
  }

  /** A scan that returned nothing met neither a failure nor any resolution, placeholder or genuine. */
  lemma {:induction false} ScanFoundNothing(q: seq<StateView>)
    requires Scan(q).outcome == Returned(None)
    ensures forall j :: 0 <= j < |q| ==> Next(q[j]).result.Missing?
  {
    if q != [] && Next(q[0]).result.Missing? {
      ScanFoundNothing(q[1..]);
      forall j | 1 <= j < |q| ensures Next(q[j]).result.Missing? {
        assert q[1..][j - 1] == q[j];
      }
    }
  }

  /** The resolve states of a new `resolve` call, one per repository in chain order, none asked yet. */
  function Fresh(repositories: seq<Repository>, id: ModuleComponentId, overrides: OverrideMetadata): (chain: seq<StateView>)
    ensures |chain| == |repositories|
    ensures forall j :: 0 <= j < |chain| ==>
      chain[j].repository == repositories[j] && chain[j].calls == 0 && chain[j].script == repositories[j].respond(id, overrides)
    ensures TaggedFrom(chain, 0)
  {
    seq(|repositories|, j requires 0 <= j < |repositories| => StateView(repositories[j], repositories[j].respond(id, overrides), 0, j))
  }

  /** One Attempted event per repository, in chain order. */
  function AttemptsOf(repositories: seq<Repository>): (events: seq<ResultEvent>)
    ensures |events| == |repositories|
    ensures forall j :: 0 <= j < |events| ==> events[j] == Attempted(repositories[j].name)
  {
    seq(|repositories|, j requires 0 <= j < |repositories| => Attempted(repositories[j].name))
  }

  /**
   What resolving a module reports: the wrapped failure, the resolution found,
   or, when nothing was found, every state's attempt followed by not-found.
   */
  function Report(repositories: seq<Repository>, id: ModuleComponentId, overrides: OverrideMetadata): (r: seq<ResultEvent>)
    ensures r != []
    ensures r[|r| - 1].ReportedFailed? ==> r[|r| - 1].error.id == id
    ensures r[|r| - 1].ReportedNotFound? ==> r[|r| - 1].id == id
    ensures |r| > 1 ==> r[|r| - 1].ReportedNotFound?
  {
    match TwoPass(Fresh(repositories, id, overrides)).outcome
    case Threw(cause) => [ReportedFailed(ModuleVersionResolveException(id, cause))]
    case Returned(None) => AttemptsOf(repositories) + [ReportedNotFound(id)]
    case Returned(Some(r)) => [ReportedResolved(r)]
  }

  /** A verdict is a resolved, not-found or failed report. */
  predicate Verdict(e: ResultEvent)
  {
    !e.Attempted?
  }

  /**
   Exactly one verdict is reported, last; it is not-found exactly when the
   search found nothing, and then every repository's attempt precedes it in
   chain order.
   */
  lemma {:induction false} ReportHasOneVerdict(repositories: seq<Repository>, id: ModuleComponentId, overrides: OverrideMetadata)
    ensures var r := Report(repositories, id, overrides);
      |r| >= 1 && Verdict(r[|r| - 1]) && forall j :: 0 <= j < |r| - 1 ==> !Verdict(r[j])
    ensures var r := Report(repositories, id, overrides);
      r[|r| - 1].ReportedNotFound? <==> TwoPass(Fresh(repositories, id, overrides)).outcome == Returned(None)
    ensures var r := Report(repositories, id, overrides);
      r[|r| - 1].ReportedNotFound? ==> r[..|r| - 1] == AttemptsOf(repositories)
  {
  }

  /** If the first repository fails locally, the call reports that failure for the identifier and nothing else. */
  lemma {:induction false} FirstRepositoryFailure(repositories: seq<Repository>, id: ModuleComponentId, overrides: OverrideMetadata)
    requires |repositories| > 0
    requires Answer(repositories[0].respond(id, overrides), 0).result.Failed?
    ensures Report(repositories, id, overrides) ==
      [ReportedFailed(ModuleVersionResolveException(id, Answer(repositories[0].respond(id, overrides), 0).result.failure))]
    ensures TwoPass(Fresh(repositories, id, overrides)).local.consumed == 1
    ensures forall j :: 0 <= j < |repositories| ==> CallsMade(Fresh(repositories, id, overrides), j) == if j == 0 then 1 else 0
  {
    FailureAbortsSearch(Fresh(repositories, id, overrides), 0);
  }
}
