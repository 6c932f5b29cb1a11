/** Reconcile as the controller runs it, step by step against the cluster, and that it is a path of the protocol. */
module Reconciler {
  import opened Bytes
  import opened Clock
  import opened Clusters
  import opened CrashReport
  import opened Lifecycle

  /** What the cache answers: one of the versions the report has had, nothing, or an error. */
  datatype Lookup = Hit(snapshot: nat) | Missing | Unavailable

  /** How one reconcile ends: no such report, read error, skip, requeue after 15 seconds, retry with backoff,
      patch error, or done. */
  datatype Outcome = NotFound | GetFailed | Skipped | WaitForAgent | RetryDelivery | PatchFailed | Done

  /** The report was read and is neither done with nor still waiting for the agent. */
  predicate Acted(result: Outcome) {
    result.RetryDelivery? || result.PatchFailed? || result.Done?
  }

  /** The environment's part: how long each phase takes, whether the uncached re-read and the webhook
      succeed, and whether the patch is accepted. drainTime passes between the endpoint's answer and the
      reading of the clock. */
  datatype Weather = Weather(
    fetchTime: nat, sendTime: nat, drainTime: nat, reread: bool, delivered: bool, accepted: bool)

  /** How notifying takes the cluster from s to t, seen being the copy worked from. */
  predicate Notified(c: Config, s: State, t: State, seen: Stored, w: Weather) {
    && t.store == s.store && t.startedAt == s.startedAt && t.wire == s.wire
    && t.now == s.now + w.sendTime + (if w.delivered then w.drainTime else 0)
    && t.controller == (if w.delivered then Deciding(seen, Some(t.now))
                        else if t.now < WebhookDeadline(seen.created, t.startedAt) then Idle
                        else Deciding(seen, None))
    && t.log.deliveries == s.log.deliveries + (if w.delivered then [s.now + w.sendTime] else [])
    && t.log.drops == s.log.drops + (if t.controller == Deciding(seen, None) then [Drop(t.now, t.startedAt)] else [])
  }

  /** How patching takes the cluster from s to t: accepted, it marks whatever is stored; refused, it changes nothing. */
  predicate Patched(s: State, t: State, notifiedAt: Option<Time>, w: Weather, result: Outcome) {
    && t.now == s.now && t.controller == Idle && t.startedAt == s.startedAt && t.log == s.log
    && result == (if w.accepted && s.store.server.Present? then Done else PatchFailed)
    && (result.PatchFailed? ==> t.store == s.store)
    && (result.Done? ==>
        && t.store.server.Present?
        && t.store.server.stored.status == MarkProcessed(s.store.server.stored.status, Stamp(notifiedAt)))
  }

  /** How acting on a report takes the cluster from s to t. It is held back exactly when delivery fails before this
      process's deadline for it; otherwise it is marked exactly when the patch is accepted. */
  predicate ActedOn(c: Config, s: State, t: State, w: Weather, result: Outcome)
    requires s.store.snapshots != []
  {
    && t.controller.Idle? && t.now >= s.now && t.startedAt == s.startedAt && Acted(result)
    && (result.RetryDelivery? <==>
          c.webhook && !w.delivered && t.now < WebhookDeadline(Created(s.store), s.startedAt))
    && (!result.RetryDelivery? ==> (result.Done? <==> w.accepted && s.store.server.Present?))
    && (!result.Done? ==> t.store == s.store)
    && (result.Done? ==>
        && s.store.server.Present? && t.store.server.Present?
        && t.store.server.stored.status
           == MarkProcessed(s.store.server.stored.status,
                            if c.webhook && w.delivered then Some(WholeSecond(t.now)) else None))
    && t.log.deliveries == s.log.deliveries + (if c.webhook && w.delivered then [t.now - w.drainTime] else [])
    && t.log.drops == s.log.drops + (if c.webhook && !w.delivered && !result.RetryDelivery?
                                     then [Drop(t.now, t.startedAt)] else [])
  }

  class Controller {
    const cluster: Cluster

    constructor (cluster: Cluster)
      ensures this.cluster == cluster
    {
      this.cluster := cluster;
    }

    /** Read the cached copy and decide whether to act on it. */
    method Look(snapshot: nat, w: Weather, ghost s: State) returns (ghost acts: seq<Action>)
      requires s == cluster.state && s.controller.Idle? && snapshot < |s.store.snapshots|
      modifies cluster`state
      ensures Path(cluster.c, s, acts, cluster.state)
      ensures var now, seen := s.now + w.fetchTime, Cached(cluster.c, s.store.snapshots[snapshot]);
              cluster.state == s.(now := now, controller := CheckReport(cluster.c, now, seen))
    {
      acts := cluster.Perform(ByController(Fetch(snapshot)), s, []);
      acts := cluster.Perform(Tick(w.fetchTime), s, acts);
      acts := cluster.Perform(ByController(Check), s, acts);
    }

    /** Send the webhook, and on failure either leave the report for a retry or record the drop. */
    method Notify(w: Weather, ghost s: State, ghost acts: seq<Action>) returns (ghost acts': seq<Action>)
      requires cluster.state.controller.Cleared? && Path(cluster.c, s, acts, cluster.state)
      modifies cluster`state
      ensures Path(cluster.c, s, acts', cluster.state)
      ensures Notified(cluster.c, old(cluster.state), cluster.state, old(cluster.state).controller.seen, w)
    {
      acts' := cluster.Perform(ByController(BeginSend(w.reread && cluster.state.store.server.Present?)), s, acts);
      acts' := cluster.Perform(Tick(w.sendTime), s, acts');
      if w.delivered {
        acts' := cluster.Perform(ByController(SendSucceeds), s, acts');
        acts' := cluster.Perform(Tick(w.drainTime), s, acts');
        acts' := cluster.Perform(ByController(StampTime), s, acts');
      } else {
        acts' := cluster.Perform(ByController(SendFails), s, acts');
      }
    }

    /** Patch the status to Processed with the notification time decided on. */
    method Patch(w: Weather, ghost s: State, ghost acts: seq<Action>)
      returns (result: Outcome, ghost acts': seq<Action>)
      requires Path(cluster.c, s, acts, cluster.state)
      requires cluster.state.controller.Deciding? && cluster.state.controller.seen.status.notifiedAt.None?
      requires forall i <- cluster.state.wire.applied :: i < |cluster.state.wire.writes|
      requires forall i <- cluster.state.wire.refused :: i < |cluster.state.wire.writes|
      modifies cluster`state
      ensures Path(cluster.c, s, acts', cluster.state)
      ensures Patched(old(cluster.state), cluster.state, old(cluster.state).controller.notifiedAt, w, result)
    {
      var id := |cluster.state.wire.writes|;
      assert id !in cluster.state.wire.applied && id !in cluster.state.wire.refused;
      acts' := cluster.Perform(ByController(IssuePatch), s, acts);
      assert OnWire(cluster.state.wire, id);
      if w.accepted && cluster.state.store.server.Present? {
        acts' := cluster.Perform(ByServer(ServerApplies(id)), s, acts');
        result := Done;
      } else {
        acts' := cluster.Perform(ByServer(ServerRefuses(id)), s, acts');
        result := PatchFailed;
      }
      acts' := cluster.Perform(ByController(PatchReturns), s, acts');
    }

    /** From the checks to the end: notify if a webhook is configured, then patch. */
    method Act(w: Weather, ghost s: State, ghost acts: seq<Action>) returns (result: Outcome, ghost acts': seq<Action>)
      requires ValidConfig(cluster.c) && Inv(cluster.c, cluster.state) && Path(cluster.c, s, acts, cluster.state)
      requires cluster.state.controller.Cleared? || cluster.state.controller.Deciding?
      requires cluster.state.controller.Cleared? <==> cluster.c.webhook
      requires cluster.state.controller.Deciding? ==> cluster.state.controller.notifiedAt.None?
      modifies cluster`state
      ensures Path(cluster.c, s, acts', cluster.state)
      ensures old(cluster.state).store.snapshots != []
      ensures ActedOn(cluster.c, old(cluster.state), cluster.state, w, result)
    {
      SeenIsRipe(cluster.c, cluster.state, cluster.state.controller.seen);
      acts' := acts;
      if cluster.state.controller.Cleared? {
        acts' := Notify(w, s, acts);
        if cluster.state.controller.Idle? {
          return RetryDelivery, acts';
        }
      }
      result, acts' := Patch(w, s, acts');
    }

    /** One reconcile, uninterrupted. */
    method Reconcile(lookup: Lookup, w: Weather) returns (result: Outcome, ghost acts: seq<Action>)
      requires ValidConfig(cluster.c) && Inv(cluster.c, cluster.state) && cluster.state.controller.Idle?
      requires lookup.Hit? ==> lookup.snapshot < |cluster.state.store.snapshots|
      modifies cluster`state
      ensures Path(cluster.c, old(cluster.state), acts, cluster.state) && Inv(cluster.c, cluster.state)
      ensures result.NotFound? <==> lookup.Missing?
      ensures result.GetFailed? <==> lookup.Unavailable?
      ensures result.Skipped? <==>
                lookup.Hit? && old(cluster.state).store.snapshots[lookup.snapshot].status.phase == Processed
      ensures result.WaitForAgent? <==>
                && lookup.Hit? && old(cluster.state).store.snapshots[lookup.snapshot].status.phase == Unset
                && old(cluster.state).now + w.fetchTime - Created(old(cluster.state).store) < GRACE_PERIOD
      ensures !Acted(result) ==>
                cluster.state == old(cluster.state).(now := if lookup.Hit? then old(cluster.state).now + w.fetchTime
                                                            else old(cluster.state).now)
      ensures Acted(result) ==> lookup.Hit? && ActedOn(cluster.c, old(cluster.state), cluster.state, w, result)
    {
      acts := [];
      if lookup.Missing? {
        return NotFound, acts;
      } else if lookup.Unavailable? {
        return GetFailed, acts;
      }
      ghost var s := cluster.state;
      var phase := cluster.state.store.snapshots[lookup.snapshot].status.phase;
      acts := Look(lookup.snapshot, w, s);
      PathKeeps(cluster.c, s, acts, cluster.state);
      if cluster.state.controller.Idle? {
        result := if phase == Processed then Skipped else WaitForAgent;
        return;
      }
      result, acts := Act(w, s, acts);
      PathKeeps(cluster.c, s, acts, cluster.state);
    }
  }
}
