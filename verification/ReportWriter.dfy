/** CreateCrashReport as the agent runs it, write by write against the cluster, and that it is a path of the
    protocol. */
module ReportWriter {
  import opened Bytes
  import opened Clock
  import opened Clusters
  import opened Lifecycle
  import opened Reporter

  /** What becomes of the first write: accepted with this version and creation time, the same with the reply
      lost, or refused. */
  datatype CreateFate = Accepted(version: nat, stamp: Time) | ReplyLost(version: nat, stamp: Time) | Refused

  /** What becomes of a status write: an answer, or none that says anything, in which case it may have been applied. */
  datatype Fate = Answered(accepted: bool, refusal: ApiError) | Unanswered(applied: bool, error: ApiError)

  /** The agent's verdict on its own writes, as the protocol names it. */
  function VerdictOf(r: CreateResult): (v: Verdict)
  {
    match r
    case Created => Success
    case CreateFailed => CreateError
    case StatusWriteError(_) => Verdict.StatusWriteError
    case ContextCancelled => Verdict.ContextError
  }

  /** The server holds the version the agent's write is locked on. */
  predicate Applicable(s: State, lock: nat) {
    s.store.server.Present? && s.store.server.stored.version == lock
  }

  class Agent {
    const cluster: Cluster

    constructor (cluster: Cluster)
      ensures this.cluster == cluster
    {
      this.cluster := cluster;
    }

    /** One status write and its reply; None is success. */
    method Attempt(fate: Fate, ghost s: State, ghost acts: seq<Action>)
      returns (reply: Option<ApiError>, ghost acts': seq<Action>)
      requires ValidConfig(cluster.c) && Inv(cluster.c, s) && Path(cluster.c, s, acts, cluster.state)
      requires cluster.state.agent.Ready? && cluster.state.agent.left > 0
      modifies cluster`state
      ensures Path(cluster.c, s, acts', cluster.state)
      ensures reply.None? <==>
                fate.Answered? && fate.accepted && Applicable(old(cluster.state), old(cluster.state).agent.lock)
      ensures var lock, left := old(cluster.state).agent.lock, old(cluster.state).agent.left - 1;
              cluster.state.agent == match reply
                case None => Finished(Success)
                case Some(e) =>
                  if IsRetryable(e) && left > 0 then Ready(lock, left) else Finished(Verdict.StatusWriteError)
    {
      var id := |cluster.state.wire.writes|;
      var applicable := Applicable(cluster.state, cluster.state.agent.lock);
      assert id !in cluster.state.wire.applied && id !in cluster.state.wire.refused by {
        PathKeeps(cluster.c, s, acts, cluster.state);
      }
      acts' := cluster.Perform(ByAgent(AttemptStatus), s, acts);
      assert OnWire(cluster.state.wire, id);
      match fate {
        case Answered(accepted, refusal) =>
          if accepted && applicable {
            acts' := cluster.Perform(ByServer(ServerApplies(id)), s, acts');
            acts' := cluster.Perform(ByAgent(StatusSucceeds), s, acts');
            return None, acts';
          }
          acts' := cluster.Perform(ByServer(ServerRefuses(id)), s, acts');
          if IsRetryable(refusal) {
            acts' := cluster.Perform(ByAgent(StatusRetryable), s, acts');
          } else {
            acts' := cluster.Perform(ByAgent(StatusRejected), s, acts');
          }
          return Some(refusal), acts';
        case Unanswered(applied, error) =>
          if applied && applicable {
            acts' := cluster.Perform(ByServer(ServerApplies(id)), s, acts');
          }
          acts' := cluster.Perform(ByAgent(StatusRetryable), s, acts');
          return Some(if IsRetryable(error) then error else NoVerdict), acts';
      }
    }

    /** The two writes of a report. The replies seen decide the result as Reporter.CreateCrashReport says, every
        step is one of the protocol's, and the agent ends with the verdict it returns. */
    method CreateCrashReport(create: CreateFate, fates: nat -> Fate, cancelled: nat -> bool)
      returns (r: CreateResult, replies: seq<Option<ApiError>>, ghost acts: seq<Action>)
      requires ValidConfig(cluster.c) && Inv(cluster.c, cluster.state) && cluster.state.agent.NotStarted?
      modifies cluster`state
      ensures Path(cluster.c, old(cluster.state), acts, cluster.state) && Inv(cluster.c, cluster.state)
      ensures cluster.state.agent == Finished(VerdictOf(r))
      ensures r.CreateFailed? <==> !create.Accepted?
      ensures create.Refused? ==> cluster.state.store == old(cluster.state).store
      ensures create.Accepted? ==> 0 < |replies| <= 4 && Concludes(r, replies, cancelled)
      ensures r.Created? ==> Landed(cluster.state.store)
    {
      ghost var s := cluster.state;
      acts, replies := [], [];
      match create {
        case Refused =>
          acts := cluster.Perform(ByAgent(CreateFails), s, acts);
          r := CreateFailed;
        case ReplyLost(version, stamp) =>
          acts := cluster.Perform(ByAgent(Create(version, stamp, true)), s, acts);
          r := CreateFailed;
        case Accepted(version, stamp) =>
          acts := cluster.Perform(ByAgent(Create(version, stamp, false)), s, acts);
          r, replies, acts := WriteStatus(fates, cancelled, s, acts);
      }
      PathKeeps(cluster.c, s, acts, cluster.state);
    }

    /** One turn of the retry loop: the wait, which may be cancelled, and the attempt. */
    method Turn(fate: Fate, cancelled: nat -> bool, seen: seq<Option<ApiError>>, ghost s: State,
                ghost acts: seq<Action>)
      returns (done: Option<CreateResult>, replies: seq<Option<ApiError>>, ghost acts': seq<Action>)
      requires ValidConfig(cluster.c) && Inv(cluster.c, s) && Path(cluster.c, s, acts, cluster.state)
      requires |seen| < 4 && AllRetryable(seen)
      requires cluster.state.agent.Ready? && cluster.state.agent.left == 4 - |seen|
      modifies cluster`state
      ensures Path(cluster.c, s, acts', cluster.state)
      ensures done.None? ==>
                |replies| == |seen| + 1 && AllRetryable(replies) && StillTrying(cluster.state.agent, |replies|)
      ensures done.Some? ==> 0 < |replies| <= 4 && Concludes(done.value, replies, cancelled)
      ensures done.Some? ==> cluster.state.agent == Finished(VerdictOf(done.value)) && !done.value.CreateFailed?
    {
      if |seen| > 0 && cancelled(|seen|) {
        acts' := cluster.Perform(ByAgent(AgentCancelled), s, acts);
        return Some(ContextCancelled), seen, acts';
      }
      var reply;
      reply, acts' := Attempt(fate, s, acts);
      replies := seen + [reply];
      done := ResultAfter(reply);
      OneMoreReply(seen, reply, cancelled);
    }

    /** The retry loop around the status write. */
    method WriteStatus(fates: nat -> Fate, cancelled: nat -> bool, ghost s: State, ghost acts: seq<Action>)
      returns (r: CreateResult, replies: seq<Option<ApiError>>, ghost acts': seq<Action>)
      requires ValidConfig(cluster.c) && Inv(cluster.c, s) && Path(cluster.c, s, acts, cluster.state)
      requires cluster.state.agent.Ready? && cluster.state.agent.left == STATUS_STEPS
      modifies cluster`state
      ensures Path(cluster.c, s, acts', cluster.state)
      ensures cluster.state.agent == Finished(VerdictOf(r)) && !r.CreateFailed?
      ensures 0 < |replies| <= 4 && Concludes(r, replies, cancelled)
    {
      acts', replies := acts, [];
      while |replies| < 4
        invariant |replies| <= 4 && AllRetryable(replies) && StillTrying(cluster.state.agent, |replies|)
        invariant Path(cluster.c, s, acts', cluster.state)
        decreases 4 - |replies|
      {
        var done;
        done, replies, acts' := Turn(fates(|replies|), cancelled, replies, s, acts');
        if done.Some? {
          return done.value, replies, acts';
        }
      }
      r := CreateResult.StatusWriteError(Last(replies).value);
    }
  }

  /** After n attempts that asked for another, the agent has 4 - n left, or has given up. */
  predicate StillTrying(agent: Lifecycle.Agent, n: nat) {
    if n < 4 then agent.Ready? && agent.left == 4 - n else agent == Finished(Verdict.StatusWriteError)
  }

  predicate AllRetryable(replies: seq<Option<ApiError>>) {
    forall k :: 0 <= k < |replies| ==> replies[k].Some? && IsRetryable(replies[k].value)
  }

  /** r is the result the replies call for. */
  predicate Concludes(r: CreateResult, replies: seq<Option<ApiError>>, cancelled: nat -> bool)
    requires 0 < |replies| <= 4
  {
    && AllRetryable(DropLast(replies))
    && (r.Created? <==> Last(replies).None?)
    && (r.ContextCancelled? <==> |replies| < 4 && AllRetryable(replies))
    && (r.ContextCancelled? ==> cancelled(|replies|))
    && (r.StatusWriteError? ==> Last(replies) == Some(r.cause))
  }

  /** What an attempt settles, if it does. */
  function ResultAfter(reply: Option<ApiError>): (r: Option<CreateResult>)
  {
    match reply
    case None => Some(Created)
    case Some(e) => if IsRetryable(e) then None else Some(CreateResult.StatusWriteError(e))
  }

  lemma OneMoreReply(seen: seq<Option<ApiError>>, reply: Option<ApiError>, cancelled: nat -> bool)
    requires AllRetryable(seen) && |seen| < 4
    ensures ResultAfter(reply).None? ==> AllRetryable(seen + [reply])
    ensures ResultAfter(reply).Some? ==> Concludes(ResultAfter(reply).value, seen + [reply], cancelled)
  {
    var replies := seen + [reply];
    assert DropLast(replies) == seen && Last(replies) == reply;
  }
}
