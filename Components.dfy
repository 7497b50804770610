/**
 Values shared by the repository-chain resolver: component identifiers, the
 answers a repository gives, and the events reported to a resolve result.

 A repository's own lookup logic is not part of this model. Each repository
 is described by two oracles:
 - `estimate`, the cost its local access reports for a module, and
 - `respond`, the script that a resolve state built for it plays back. Entry k
   is the answer of the (k+1)-th `resolve()` call, together with what
   `canMakeFurtherAttempts()` says after that call.
 */
module Components {

  datatype Option<T> = None | Some(value: T)

  /** Group, name and version of a module. */
  datatype ModuleComponentId = ModuleComponentId(group: string, name: string, version: string)

  /** An identifier handed to the resolver. Only the module variant can be looked up in repositories. */
  datatype ComponentId =
    | ModuleComponent(id: ModuleComponentId)
    | OtherComponent(displayName: string)

  /** Caller hints passed unchanged to every repository. */
  datatype OverrideMetadata = OverrideMetadata(hints: seq<string>)

  /** Estimated metadata fetching cost; `Normal` is neither fast nor expensive. */
  datatype FetchCost = Fast | Normal | Expensive

  /** Why a resolve step failed: the repository failed, or the state was driven past its last phase. */
  datatype Failure = RepositoryFailure(message: string) | PastLastPhase

  /** Module metadata; `isMissing` marks a placeholder for a version known to be absent. */
  datatype ModuleMetadata = ModuleMetadata(id: ModuleComponentId, isMissing: bool, descriptor: seq<string>)

  /** The state of a metadata resolve result after one `resolve()` call. */
  datatype StepResult = Failed(failure: Failure) | Missing | Resolved(metadata: ModuleMetadata)

  /** One `resolve()` answer and the `canMakeFurtherAttempts()` answer that follows it. */
  datatype Step = Step(result: StepResult, furtherAttempts: bool)

  datatype Repository = Repository(
    name: string,
    estimate: ModuleComponentId -> FetchCost,
    respond: (ModuleComponentId, OverrideMetadata) -> seq<Step>)

  /** A repository paired with the metadata it resolved. */
  datatype Resolution = Resolution(repository: Repository, metadata: ModuleMetadata)

  /** The failure reported for an identifier, wrapping the cause. */
  datatype ModuleVersionResolveException = ModuleVersionResolveException(id: ModuleComponentId, cause: Failure)

  /** What the resolver reports to a resolve result, in order. */
  datatype ResultEvent =
    | Attempted(repositoryName: string)
    | ReportedResolved(resolution: Resolution)
    | ReportedNotFound(id: ModuleComponentId)
    | ReportedFailed(error: ModuleVersionResolveException)

  /** How a call to `resolve` ended: normally, or by throwing UnsupportedOperationException. */
  datatype Completion = Completed | ThrewUnsupportedOperation

  /**
   The answer of `resolve()` call number `k` (counting from 0). A state driven
   past its script fails, which the resolver reports as a failure like any
   other.
   */
  function Answer(script: seq<Step>, k: nat): Step
  {
    if k < |script| then script[k] else Step(Failed(PastLastPhase), false)
  }

  /** A step that ends a scan at once: a failure or a genuine (not placeholder) resolution. */
  predicate Stops(r: StepResult)
  {
    r.Failed? || (r.Resolved? && !r.metadata.isMissing)
  }

  /** A resolution whose metadata is a missing-version placeholder. */
  predicate Placeholder(r: StepResult)
  {
    r.Resolved? && r.metadata.isMissing
  }
}
