/** From a victim's cgroup name to the container incarnation that died, and the writing of its report. */
module Reporter {
  import opened Bytes
  import LogCapture
  import Retry

  const SCOPE: Text := [46, 115, 99, 111, 112, 101]
  const SCHEME_SEP: Text := [58, 47, 47]

  // ---------- Container IDs

  /** containerIDFromCgroup. */
  function ContainerIDFromCgroup(name: Text): (id: Text)
  {
    var parts := Split(name, DASH);
    if |parts| < 2 then name else TrimSuffix(Last(parts), SCOPE)
  }

  /** containerIDsMatch. */
  predicate ContainerIDsMatch(statusID: Text, cgroupID: Text) {
    statusID != [] && cgroupID != [] &&
    (var cut := Cut(statusID, SCHEME_SEP); (if cut.found then cut.after else statusID) == cgroupID)
  }

  lemma LastPiece(prefix: Text, last: Text)
    requires DASH !in last
    ensures var parts := Split(prefix + ([DASH] + last), DASH); |parts| >= 2 && Last(parts) == last
  {
    SplitConcat(prefix, [DASH] + last, DASH);
    SplitHead([], last, DASH);
    assert [] + [DASH] + last == [DASH] + last;
    SplitHead(last, [], DASH);
    assert Split([DASH] + last, DASH) == [[], last];
  }

  lemma TrimScope(id: Text)
    ensures TrimSuffix(id + SCOPE, SCOPE) == id
  {
    var s := id + SCOPE;
    assert s[|s| - |SCOPE|..] == SCOPE && s[..|s| - |SCOPE|] == id;
  }

  /** Under the systemd driver the ID comes back whatever the runtime prefix; under cgroupfs it is the name. */
  lemma CgroupNamesYieldTheID(prefix: Text, id: Text)
    requires DASH !in id
    ensures ContainerIDFromCgroup(prefix + [DASH] + id + SCOPE) == id
    ensures ContainerIDFromCgroup(id) == id
  {
    assert DASH !in SCOPE;
    assert prefix + [DASH] + id + SCOPE == prefix + ([DASH] + (id + SCOPE));
    LastPiece(prefix, id + SCOPE);
    TrimScope(id);
    SplitHead(id, [], DASH);
  }

  ghost predicate PlainScheme(scheme: Text) {
    forall j :: !OccursAt(scheme, SCHEME_SEP, j)
  }

  /** A scheme that does not itself hold the separator is cut off exactly. */
  lemma SchemeIsCut(scheme: Text, id: Text)
    requires PlainScheme(scheme)
    ensures Cut(scheme + SCHEME_SEP + id, SCHEME_SEP) == CutResult(scheme, id, true)
  {
    var s := scheme + SCHEME_SEP + id;
    forall j | 0 <= j < |scheme| ensures !OccursAt(s, SCHEME_SEP, j) {
      var w := s[j..j + 3];
      assert w[1] == s[j + 1] && w[2] == s[j + 2];
      if j + 3 <= |scheme| {
        assert w == scheme[j..j + 3];
        assert !OccursAt(scheme, SCHEME_SEP, j);
      } else if j + 2 == |scheme| {
        assert w[2] == SCHEME_SEP[0] != SCHEME_SEP[2];
      } else {
        assert w[1] == SCHEME_SEP[0] != SCHEME_SEP[1];
      }
    }
    CutFirst(scheme, SCHEME_SEP, id);
  }

  /** "scheme://id" matches an ID exactly when it is that ID: neither a part of it nor the scheme will do. */
  lemma MatchIsEquality(scheme: Text, id: Text, victim: Text)
    requires PlainScheme(scheme)
    requires id != [] && victim != []
    ensures ContainerIDsMatch(scheme + SCHEME_SEP + id, victim) <==> id == victim
  {
    SchemeIsCut(scheme, id);
  }

  // ---------- Pods

  datatype ContainerStatus = ContainerStatus(
    name: Text, containerID: Text, restartCount: nat, terminated: bool, waiting: bool, lastTerminatedID: Option<Text>)

  datatype Pod = Pod(
    name: Text, namespace: Text, uid: Text,
    containers: seq<ContainerStatus>, initContainers: seq<ContainerStatus>, ephemeralContainers: seq<ContainerStatus>)

  datatype PodMeta = PodMeta(podName: Text, namespace: Text, containerName: Text, podUID: Text, logFileIndex: int)

  function Statuses(pod: Pod): (r: seq<ContainerStatus>)
  {
    pod.containers + pod.initContainers + pod.ephemeralContainers
  }

  /** The log index if the status is of the container with this ID, alive or in its previous incarnation. */
  function MatchStatus(cs: ContainerStatus, id: Text): (r: Option<int>)
  {
    if ContainerIDsMatch(cs.containerID, id) then Some(cs.restartCount)
    else if cs.lastTerminatedID.Some? && ContainerIDsMatch(cs.lastTerminatedID.value, id) then Some(cs.restartCount - 1)
    else None
  }

  /** findContainerByID: the first status that matches gives the container's name and log index. */
  method FindContainerByID(pod: Pod, id: Text) returns (name: Text, index: int, ghost at: Option<nat>)
    ensures match at
      case Some(k) =>
        && k < |Statuses(pod)|
        && MatchStatus(Statuses(pod)[k], id) == Some(index) && name == Statuses(pod)[k].name
        && (forall j :: 0 <= j < k ==> MatchStatus(Statuses(pod)[j], id).None?)
      case None =>
        && name == [] && index == -1
        && (forall j :: 0 <= j < |Statuses(pod)| ==> MatchStatus(Statuses(pod)[j], id).None?)
    ensures (name, index) == FoundIn(Statuses(pod), id)
  {
    var statuses := Statuses(pod);
    for k := 0 to |statuses|
      invariant forall j :: 0 <= j < k ==> MatchStatus(statuses[j], id).None?
      invariant FoundIn(statuses, id) == FoundIn(statuses[k..], id)
    {
      var cs := statuses[k];
      assert statuses[k..][0] == cs && statuses[k..][1..] == statuses[k + 1..];
      if ContainerIDsMatch(cs.containerID, id) {
        return cs.name, cs.restartCount, Some(k);
      }
      if cs.lastTerminatedID.Some? && ContainerIDsMatch(cs.lastTerminatedID.value, id) {
        return cs.name, cs.restartCount - 1, Some(k);
      }
    }
    return [], -1, None;
  }

  function FoundIn(statuses: seq<ContainerStatus>, id: Text): (r: (Text, int))
  {
    if statuses == [] then ([], -1)
    else match MatchStatus(statuses[0], id)
      case Some(i) => (statuses[0].name, i)
      case None => FoundIn(statuses[1..], id)
  }

  // ---------- Which incarnation

  /** A container's life: the IDs of its incarnations so far, oldest first; none before its first is created. */
  datatype Container = Container(name: Text, scheme: Text, ids: seq<Text>)

  ghost predicate ValidContainer(c: Container) {
    && c.name != []
    && PlainScheme(c.scheme)
    && (forall i :: 0 <= i < |c.ids| ==> c.ids[i] != [])
  }

  function URL(c: Container, i: nat): (id: Text)
    requires i < |c.ids|
  {
    c.scheme + SCHEME_SEP + c.ids[i]
  }

  /** cs is how the kubelet publishes c: the current ID with the restart count, the previous one as terminated. */
  predicate Publishes(cs: ContainerStatus, c: Container) {
    var r := |c.ids| - 1;
    && r >= 0 && cs.name == c.name && cs.restartCount == r && cs.containerID == URL(c, r)
    && cs.lastTerminatedID == (if r == 0 then None else Some(URL(c, r - 1)))
  }

  /** The status gives incarnation i as the current one. */
  predicate ShowsCurrent(cs: ContainerStatus, c: Container, i: nat) {
    i < |c.ids| && cs.containerID == URL(c, i)
  }

  /** The status gives incarnation i as the one that terminated last. */
  predicate ShowsPrevious(cs: ContainerStatus, c: Container, i: nat) {
    i < |c.ids| && cs.lastTerminatedID == Some(URL(c, i))
  }

  /** cs is some status of c: each ID in it is one of c's or not published yet. Which of c's it shows, and with
      what restart count, is left open: the container may be pending and the listing may lag behind. */
  ghost predicate StatusOf(cs: ContainerStatus, c: Container) {
    && ValidContainer(c) && cs.name == c.name
    && (cs.containerID == [] || exists i: nat :: ShowsCurrent(cs, c, i))
    && (cs.lastTerminatedID in {None, Some([])} || exists i: nat :: ShowsPrevious(cs, c, i))
  }

  /** The status does not show the ID, neither as current nor as previous. */
  ghost predicate Silent(cs: ContainerStatus, c: Container, id: Text) {
    forall i: nat :: ShowsCurrent(cs, c, i) || ShowsPrevious(cs, c, i) ==> c.ids[i] != id
  }

  /** The status shows incarnation i, whose ID this is, with the restart count that belongs to it: as current,
      or as previous while no other incarnation with the ID is current. */
  ghost predicate ShowsOwner(cs: ContainerStatus, c: Container, i: nat, id: Text) {
    && i < |c.ids| && c.ids[i] == id
    && (|| (ShowsCurrent(cs, c, i) && cs.restartCount == i)
        || (ShowsPrevious(cs, c, i) && cs.restartCount == i + 1 && !ContainerIDsMatch(cs.containerID, id)))
  }

  /** What the kubelet publishes is one such status, and shows the last two incarnations under their own IDs. */
  lemma PublishedIsStatus(cs: ContainerStatus, c: Container)
    requires ValidContainer(c) && Publishes(cs, c)
    ensures StatusOf(cs, c)
    ensures var r := |c.ids| - 1;
            && ShowsOwner(cs, c, r, c.ids[r])
            && (r > 0 && c.ids[r - 1] != c.ids[r] ==> ShowsOwner(cs, c, r - 1, c.ids[r - 1]))
  {
    var r := |c.ids| - 1;
    assert ShowsCurrent(cs, c, r);
    if r > 0 {
      assert ShowsPrevious(cs, c, r - 1);
      MatchIsEquality(c.scheme, c.ids[r], c.ids[r - 1]);
    }
  }

  // ---------- The whole chain

  /** The metadata of the first pod that holds the ID. */
  function MatchIn(pods: seq<Pod>, id: Text): (r: Option<PodMeta>)
  {
    if pods == [] then None
    else
      var found := FoundIn(Statuses(pods[0]), id);
      if found.0 != [] then Some(PodMeta(pods[0].name, pods[0].namespace, found.0, pods[0].uid, found.1))
      else MatchIn(pods[1..], id)
  }

  ghost predicate StatusesOf(statuses: seq<ContainerStatus>, containers: seq<Container>) {
    |containers| == |statuses| && forall k :: 0 <= k < |statuses| ==> StatusOf(statuses[k], containers[k])
  }

  /** lives[p][k] is the container whose status is the k-th of pod p. */
  ghost predicate Listed(pods: seq<Pod>, lives: seq<seq<Container>>) {
    |lives| == |pods| && forall p :: 0 <= p < |pods| ==> StatusesOf(Statuses(pods[p]), lives[p])
  }

  lemma URLMatches(c: Container, i: nat, id: Text)
    requires ValidContainer(c) && i < |c.ids| && id != []
    ensures ContainerIDsMatch(URL(c, i), id) <==> c.ids[i] == id
  {
    MatchIsEquality(c.scheme, c.ids[i], id);
  }

  /** A published container matches an ID that is its current one, or else its previous one. */
  lemma PublishedMatches(cs: ContainerStatus, c: Container, id: Text)
    requires ValidContainer(c) && Publishes(cs, c) && id != []
    ensures var r := |c.ids| - 1;
            MatchStatus(cs, id) == if c.ids[r] == id then Some(r)
                                   else if r > 0 && c.ids[r - 1] == id then Some(r - 1)
                                   else None
  {
    var r := |c.ids| - 1;
    URLMatches(c, r, id);
    if r > 0 {
      URLMatches(c, r - 1, id);
    }
    MatchStatusBy(cs, id, c.ids[r] == id, r > 0 && c.ids[r - 1] == id);
  }

  lemma MatchStatusBy(cs: ContainerStatus, id: Text, current: bool, previous: bool)
    requires current <==> ContainerIDsMatch(cs.containerID, id)
    requires previous <==> cs.lastTerminatedID.Some? && ContainerIDsMatch(cs.lastTerminatedID.value, id)
    ensures MatchStatus(cs, id) == if current then Some(cs.restartCount)
                                   else if previous then Some(cs.restartCount - 1)
                                   else None
  {
  }

  lemma OwnerMatches(cs: ContainerStatus, c: Container, i: nat, id: Text)
    requires ValidContainer(c) && id != [] && ShowsOwner(cs, c, i, id)
    ensures MatchStatus(cs, id) == Some(i as int)
  {
    URLMatches(c, i, id);
  }

  /** A status that does not show the ID does not match it; one still without an ID matches nothing. */
  lemma SilentDoesNotMatch(cs: ContainerStatus, c: Container, id: Text)
    requires StatusOf(cs, c) && id != [] && Silent(cs, c, id)
    ensures MatchStatus(cs, id).None?
  {
    if i: nat :| ShowsCurrent(cs, c, i) {
      URLMatches(c, i, id);
    }
    if i: nat :| ShowsPrevious(cs, c, i) {
      URLMatches(c, i, id);
    }
  }

  /** Status k shows the owner, and no other one shows the ID. */
  ghost predicate OwnerAt(statuses: seq<ContainerStatus>, containers: seq<Container>, k: nat, i: nat, id: Text)
    requires |containers| == |statuses|
  {
    && k < |statuses| && ShowsOwner(statuses[k], containers[k], i, id)
    && SilentBut(statuses, containers, k, id)
  }

  /** No status but the k-th shows the ID. */
  ghost predicate SilentBut(statuses: seq<ContainerStatus>, containers: seq<Container>, k: int, id: Text)
    requires |containers| == |statuses|
  {
    forall j :: 0 <= j < |statuses| && j != k ==> Silent(statuses[j], containers[j], id)
  }

  lemma {:induction false} FoundInOwner(statuses: seq<ContainerStatus>, containers: seq<Container>, k: nat, i: nat,
                                        id: Text)
    requires StatusesOf(statuses, containers) && id != [] && OwnerAt(statuses, containers, k, i, id)
    ensures FoundIn(statuses, id) == (containers[k].name, i as int)
  {
    if k == 0 {
      OwnerMatches(statuses[0], containers[0], i, id);
    } else {
      SilentDoesNotMatch(statuses[0], containers[0], id);
      FoundInOwner(statuses[1..], containers[1..], k - 1, i, id);
    }
  }

  lemma {:induction false} FoundInNone(statuses: seq<ContainerStatus>, containers: seq<Container>, id: Text)
    requires StatusesOf(statuses, containers) && id != [] && SilentBut(statuses, containers, -1, id)
    ensures FoundIn(statuses, id) == ([], -1)
  {
    if statuses != [] {
      SilentDoesNotMatch(statuses[0], containers[0], id);
      FoundInNone(statuses[1..], containers[1..], id);
    }
  }

  /** Incarnation i of container k of pod p is shown under this ID, and no other status on the node shows it. */
  ghost predicate OnlyOwner(pods: seq<Pod>, lives: seq<seq<Container>>, p: nat, k: nat, i: nat, id: Text)
    requires Listed(pods, lives)
  {
    && p < |pods| && OwnerAt(Statuses(pods[p]), lives[p], k, i, id)
    && (forall q :: 0 <= q < |pods| && q != p ==> SilentBut(Statuses(pods[q]), lives[q], -1, id))
  }

  /** No status on the node shows the ID yet. */
  ghost predicate NoOwner(pods: seq<Pod>, lives: seq<seq<Container>>, id: Text)
    requires Listed(pods, lives)
  {
    forall q :: 0 <= q < |pods| ==> SilentBut(Statuses(pods[q]), lives[q], -1, id)
  }

  lemma {:induction false} MatchInOwner(pods: seq<Pod>, lives: seq<seq<Container>>, p: nat, k: nat, i: nat, id: Text)
    requires Listed(pods, lives) && id != [] && OnlyOwner(pods, lives, p, k, i, id)
    ensures MatchIn(pods, id) == Some(PodMeta(pods[p].name, pods[p].namespace, lives[p][k].name, pods[p].uid, i))
  {
    if p == 0 {
      FoundInOwner(Statuses(pods[0]), lives[0], k, i, id);
    } else {
      FoundInNone(Statuses(pods[0]), lives[0], id);
      assert OnlyOwner(pods[1..], lives[1..], p - 1, k, i, id);
      MatchInOwner(pods[1..], lives[1..], p - 1, k, i, id);
    }
  }

  lemma {:induction false} MatchInNone(pods: seq<Pod>, lives: seq<seq<Container>>, id: Text)
    requires Listed(pods, lives) && id != [] && NoOwner(pods, lives, id)
    ensures MatchIn(pods, id).None?
  {
    if pods != [] {
      FoundInNone(Statuses(pods[0]), lives[0], id);
      assert NoOwner(pods[1..], lives[1..], id);
      MatchInNone(pods[1..], lives[1..], id);
    }
  }

  /** Victim identity: from a cgroup name with any runtime prefix, one look at the node finds the container
      incarnation that owns the ID, whatever else on the node is still waiting for one, and the log opened for
      it is that incarnation's file or none at all. */
  lemma VictimIsIdentified(pods: seq<Pod>, lives: seq<seq<Container>>, p: nat, k: nat, i: nat, id: Text, prefix: Text,
                           dir: LogCapture.LogDir, latest: LogCapture.LogDir -> Option<Text>, other: nat)
    requires Listed(pods, lives) && id != [] && DASH !in id && OnlyOwner(pods, lives, p, k, i, id)
    ensures var meta := MatchIn(pods, ContainerIDFromCgroup(prefix + [DASH] + id + SCOPE));
            && meta == Some(PodMeta(pods[p].name, pods[p].namespace, lives[p][k].name, pods[p].uid, i))
            && meta == MatchIn(pods, ContainerIDFromCgroup(id))
            && LogCapture.FindLogFile(dir, meta.value.logFileIndex, latest) in {None, Some(LogCapture.LogName(i))}
            && (other != i ==> LogCapture.LogName(other) != LogCapture.LogName(i))
  {
    CgroupNamesYieldTheID(prefix, id);
    MatchInOwner(pods, lives, p, k, i, id);
    LogCapture.NeverSubstituted(dir, i, latest, other);
    if other != i {
      LogCapture.LogNamesDiffer(other, i);
    }
  }

  // ---------- ResolvePodMeta

  /** anyContainerIDPending, for one container. */
  predicate Pending(cs: ContainerStatus) {
    (cs.containerID == [] && !cs.terminated) || cs.waiting
  }

  predicate AnyContainerIDPending(pods: seq<Pod>) {
    exists p <- pods :: exists cs <- Statuses(p) :: Pending(cs)
  }

  datatype ResolveError = PodListError | ContextError | NotFound

  /** One look at the pods on the node; None is a listing that failed. */
  function ResolveAttempt(listing: Option<seq<Pod>>, id: Text): (a: Retry.Attempt<ResolveError>)
  {
    if listing.None? then Retry.Fail(PodListError)
    else if MatchIn(listing.value, id).Some? then Retry.Done
    else if AnyContainerIDPending(listing.value) then Retry.Again
    else Retry.Done
  }

  predicate Matched(listing: Option<seq<Pod>>, id: Text) {
    listing.Some? && MatchIn(listing.value, id).Some? && MatchIn(listing.value, id).value.podName != []
  }

  /** What a resolution returns that ends with this listing, the last one it may ask for or not. */
  function Settled(listing: Option<seq<Pod>>, id: Text, last: bool): (r: Result<PodMeta, ResolveError>)
  {
    match ResolveAttempt(listing, id)
    case Fail(e) => Err(e)
    case Done => if Matched(listing, id) then Ok(MatchIn(listing.value, id).value) else Err(NotFound)
    case Again => if last then Err(NotFound) else Err(ContextError)
  }

  /** Which result that is, exactly. */
  lemma SettledMeans(listing: Option<seq<Pod>>, id: Text, last: bool)
    ensures var r := Settled(listing, id, last);
            && (r.Ok? <==> Matched(listing, id))
            && (r.Ok? ==> r.value == MatchIn(listing.value, id).value)
            && (r == Err(PodListError) <==> listing.None?)
            && (r == Err(ContextError) <==> !last && ResolveAttempt(listing, id).Again?)
            && (r == Err(NotFound) ==>
                && listing.Some? && !Matched(listing, id)
                && (MatchIn(listing.value, id).None? ==> !AnyContainerIDPending(listing.value) || last))
  {
  }

  /** How a resolution ends that has come to its k-th listing, and after how many listings. */
  function Resolution(listings: nat -> Option<seq<Pod>>, id: Text, cancelled: nat -> bool, k: nat)
    : (r: (Result<PodMeta, ResolveError>, nat))
    requires k < 6
    decreases 6 - k
  {
    if k < 5 && GoesOn(listings, id, cancelled, k) then Resolution(listings, id, cancelled, k + 1)
    else (Settled(listings(k), id, k == 5), k + 1)
  }

  /** The k-th listing settles nothing, and the wait after it is not cancelled. */
  predicate GoesOn(listings: nat -> Option<seq<Pod>>, id: Text, cancelled: nat -> bool, k: nat) {
    ResolveAttempt(listings(k), id).Again? && !cancelled(k + 1)
  }

  lemma ResolutionStep(listings: nat -> Option<seq<Pod>>, id: Text, cancelled: nat -> bool, k: nat)
    requires k < 5 && GoesOn(listings, id, cancelled, k)
    ensures Resolution(listings, id, cancelled, k) == Resolution(listings, id, cancelled, k + 1)
  {
  }

  lemma {:induction false} ResolutionPasses(listings: nat -> Option<seq<Pod>>, id: Text, cancelled: nat -> bool, k: nat)
    requires k < 6 && forall m: nat :: m < k ==> GoesOn(listings, id, cancelled, m)
    ensures Resolution(listings, id, cancelled, 0) == Resolution(listings, id, cancelled, k)
  {
    if k > 0 {
      ResolutionPasses(listings, id, cancelled, k - 1);
      ResolutionStep(listings, id, cancelled, k - 1);
    }
  }

  /** How a resolution ends at listing k, if the wait after it is to be taken at all. */
  lemma ResolutionEnds(listings: nat -> Option<seq<Pod>>, id: Text, cancelled: nat -> bool, k: nat)
    requires k < 6 && (ResolveAttempt(listings(k), id).Again? && k < 5 ==> cancelled(k + 1))
    ensures Resolution(listings, id, cancelled, k) == (Settled(listings(k), id, k == 5), k + 1)
  {
  }

  /** listings(k) is what the k-th listing returns. */
  method ResolvePodMeta(listings: nat -> Option<seq<Pod>>, id: Text, cancelled: nat -> bool)
    returns (r: Result<PodMeta, ResolveError>, attempts: nat, waits: seq<nat>)
    ensures 0 < attempts <= 6
    ensures r.Ok? <==> Matched(listings(attempts - 1), id)
    ensures r.Ok? ==> r.value == MatchIn(listings(attempts - 1).value, id).value
    // A listing failure reaches the caller as itself, a cancelled wait as the context's error.
    ensures r == Err(PodListError) <==> listings(attempts - 1).None?
    ensures r == Err(ContextError) <==> attempts < 6 && ResolveAttempt(listings(attempts - 1), id).Again?
    ensures r == Err(ContextError) ==> cancelled(attempts)
    // "Not found" is a verdict on the last listing, and a final one: nothing was pending or every attempt was used.
    ensures r == Err(NotFound) ==>
      && listings(attempts - 1).Some? && !Matched(listings(attempts - 1), id)
      && (MatchIn(listings(attempts - 1).value, id).None? ==>
          !AnyContainerIDPending(listings(attempts - 1).value) || attempts == 6)
    // Earlier listings all had something pending and no match, and no wait between them was cancelled.
    ensures forall k: nat :: k < attempts - 1 ==> GoesOn(listings, id, cancelled, k)
    ensures waits == Retry.Waits(Retry.RESOLVE_BACKOFF, _ => 0, attempts - 1)
    ensures (r, attempts) == Resolution(listings, id, cancelled, 0)
  {
    var outcome;
    var fn := (k: nat) => ResolveAttempt(listings(k), id);
    outcome, attempts, waits := Retry.RetryOnBackoff(Retry.RESOLVE_BACKOFF, fn, cancelled, _ => 0);
    var last := listings(attempts - 1);
    assert fn(attempts - 1) == ResolveAttempt(last, id);
    match outcome {
      case Error(e) => r := Err(e);
      case Cancelled => r := Err(ContextError);
      case Nil => r := if Matched(last, id) then Ok(MatchIn(last.value, id).value) else Err(NotFound);
    }
    assert r == Settled(last, id, attempts == 6);
    SettledMeans(last, id, attempts == 6);
    forall k: nat | k < attempts - 1 ensures GoesOn(listings, id, cancelled, k) {
      assert fn(k).Again? && !cancelled(k + 1);
    }
    ResolutionPasses(listings, id, cancelled, attempts - 1);
    ResolutionEnds(listings, id, cancelled, attempts - 1);
  }

  /** On some listing of the node the victim's own status is pending and nobody shows its ID. */
  ghost predicate StillPending(listing: Option<seq<Pod>>, lives: seq<seq<Container>>, p: nat, k: nat, id: Text) {
    && listing.Some? && Listed(listing.value, lives) && NoOwner(listing.value, lives, id)
    && p < |listing.value| && k < |Statuses(listing.value[p])| && Pending(Statuses(listing.value[p])[k])
  }

  lemma PendingAsksAgain(listing: Option<seq<Pod>>, lives: seq<seq<Container>>, p: nat, k: nat, id: Text)
    requires id != [] && StillPending(listing, lives, p, k, id)
    ensures ResolveAttempt(listing, id).Again?
  {
    MatchInNone(listing.value, lives, id);
    var pod := listing.value[p];
    assert pod in listing.value && Statuses(pod)[k] in Statuses(pod);
  }

  /** The race the retries exist for: a victim whose ID the first n listings do not show yet, because its status
      is pending, and the next one does, n < 6. Unless cancelled, resolution waits for it and returns the
      incarnation that died, after n + 1 listings; pods may come, go and move between listings. */
  lemma VictimIsResolved(listings: nat -> Option<seq<Pod>>, lives: nat -> seq<seq<Container>>, n: nat,
                         at: nat -> (nat, nat), p: nat, k: nat, i: nat, id: Text, prefix: Text, cancelled: nat -> bool)
    requires id != [] && DASH !in id && n < 6
    requires forall m: nat :: m < n ==> StillPending(listings(m), lives(m), at(m).0, at(m).1, id) && !cancelled(m + 1)
    requires listings(n).Some? && Listed(listings(n).value, lives(n)) &&
             OnlyOwner(listings(n).value, lives(n), p, k, i, id)
    requires listings(n).value[p].name != []
    ensures var pod := listings(n).value[p];
            Resolution(listings, ContainerIDFromCgroup(prefix + [DASH] + id + SCOPE), cancelled, 0)
            == (Ok(PodMeta(pod.name, pod.namespace, lives(n)[p][k].name, pod.uid, i)), n + 1)
  {
    CgroupNamesYieldTheID(prefix, id);
    forall m: nat | m < n ensures GoesOn(listings, id, cancelled, m) {
      PendingAsksAgain(listings(m), lives(m), at(m).0, at(m).1, id);
    }
    ResolutionPasses(listings, id, cancelled, n);
    MatchInOwner(listings(n).value, lives(n), p, k, i, id);
    ResolutionEnds(listings, id, cancelled, n);
  }

  /** The whole schedule of a resolution that never settles takes 6.2 seconds. */
  lemma ResolveScheduleTotal()
    ensures Retry.Sum(Retry.Waits(Retry.RESOLVE_BACKOFF, _ => 0, 5)) == 6200
  {
    Retry.DoublingWaitsSum(Retry.RESOLVE_BACKOFF, _ => 0, 5);
    assert Retry.Pow(2, 3) == 8;
    assert Retry.Pow(2, 5) == 32;
  }

  // ---------- CreateCrashReport

  /** Errors of a status write, as the API client tells them apart. */
  datatype ApiError =
    | NoVerdict | ServerTimeout | Timeout | TooManyRequests | InternalError | ServiceUnavailable
    | Conflict | Invalid | Forbidden | OtherStatus

  /** isRetryableStatusError. */
  predicate IsRetryable(e: ApiError) {
    e in {NoVerdict, ServerTimeout, Timeout, TooManyRequests, InternalError, ServiceUnavailable}
  }

  datatype CreateResult = Created | CreateFailed | StatusWriteError(cause: ApiError) | ContextCancelled

  function StatusAttempt(reply: Option<ApiError>): (a: Retry.Attempt<ApiError>)
  {
    match reply
    case None => Retry.Done
    case Some(e) => if IsRetryable(e) then Retry.Again else Retry.Fail(e)
  }

  /** The two writes of a report: replies(k) is the error of the k-th status attempt, None if it succeeded. */
  method CreateCrashReport(createFails: bool, replies: nat -> Option<ApiError>, cancelled: nat -> bool,
                           jitter: nat -> nat)
    returns (r: CreateResult, attempts: nat, waits: seq<nat>)
    ensures createFails <==> r.CreateFailed?
    ensures createFails ==> attempts == 0
    ensures !createFails ==>
      && 0 < attempts <= 4
      && (forall k :: 0 <= k < attempts - 1 ==> replies(k).Some? && IsRetryable(replies(k).value))
      // Success exactly when the last attempt succeeded; its error otherwise, once retrying is over.
      && (r.Created? <==> replies(attempts - 1).None?)
      && (r.StatusWriteError? ==> replies(attempts - 1) == Some(r.cause) && (IsRetryable(r.cause) ==> attempts == 4))
      // A cancelled wait is reported as the context's error, not as a status-write error.
      && (r.ContextCancelled? <==>
            attempts < 4 && replies(attempts - 1).Some? && IsRetryable(replies(attempts - 1).value))
      && (r.ContextCancelled? ==> cancelled(attempts))
      && ((forall k :: !cancelled(k)) ==> r.Created? || r.StatusWriteError?)
    ensures waits == Retry.Waits(Retry.STATUS_BACKOFF, jitter, if attempts == 0 then 0 else attempts - 1)
  {
    if createFails {
      return CreateFailed, 0, [];
    }
    var outcome;
    var fn := (k: nat) => StatusAttempt(replies(k));
    outcome, attempts, waits := Retry.RetryOnBackoff(Retry.STATUS_BACKOFF, fn, cancelled, jitter);
    assert fn(attempts - 1) == StatusAttempt(replies(attempts - 1));
    forall k | 0 <= k < attempts - 1 ensures replies(k).Some? && IsRetryable(replies(k).value) {
      assert fn(k).Again?;
    }
    match outcome {
      case Error(e) => return StatusWriteError(e), attempts, waits;
      case Cancelled => return ContextCancelled, attempts, waits;
      case Nil =>
    }
    var lastErr := replies(attempts - 1);
    if lastErr.Some? {
      return StatusWriteError(lastErr.value), attempts, waits;
    }
    return Created, attempts, waits;
  }
}
