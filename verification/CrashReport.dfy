/** The PodCrashReport object, its JSON form, and the two status patches that are ever sent for it. */
module CrashReport {
  import opened Bytes
  import opened Clock
  import opened MergePatch

  datatype Phase = Unset | Pending | Processed

  /** Captured diagnostics: every member except lastLogLines is kept as JSON in `figures`. */
  datatype Diagnostics = Diagnostics(figures: map<Name, Json>, lastLogLines: seq<string>)

  datatype Status = Status(diagnostics: Diagnostics, phase: Phase, notifiedAt: Option<Time>)

  const NO_DIAGNOSTICS := Diagnostics(map[], [])

  const EMPTY_STATUS := Status(NO_DIAGNOSTICS, Unset, None)

  /** A report: `rest` holds the members other than status (metadata, spec). */
  datatype Report = Report(rest: map<Name, Json>, status: Status)

  predicate WellFormedDiagnostics(d: Diagnostics) {
    && LastLogLinesKey !in d.figures
    && (forall k | k in d.figures :: NoNulls(d.figures[k]))
  }

  // ---------- JSON encoding, with the omitempty rules of the Go struct tags

  function EncodeDiagnostics(d: Diagnostics): (j: Json)
  {
    Object(d.figures + if d.lastLogLines == [] then map[] else map[LastLogLinesKey := Array(d.lastLogLines)])
  }

  function PhaseName(p: Phase): (s: string)
  {
    match p
    case Unset => ""
    case Pending => "Pending"
    case Processed => "Processed"
  }

  function WithPhase(m: map<Name, Json>, p: Phase): (r: map<Name, Json>)
  {
    if p.Unset? then m else m[PhaseKey := Scalar(PhaseName(p))]
  }

  /** A notification time as the API server will hold it. */
  function Stamp(n: Option<Time>): (r: Option<Time>)
  {
    if n.None? then None else Some(WholeSecond(n.value))
  }

  function WithNotifiedAt(m: map<Name, Json>, n: Option<Time>): (r: map<Name, Json>)
  {
    if n.None? then m else m[NotifiedAtKey := Instant(WholeSecond(n.value))]
  }

  /** The members of a status whose diagnostics encode as d. */
  function MembersOf(d: Json, p: Phase, n: Option<Time>): (m: map<Name, Json>)
  {
    WithNotifiedAt(WithPhase(map[DiagnosticsKey := d], p), n)
  }

  function StatusMembers(s: Status): (m: map<Name, Json>)
  {
    MembersOf(EncodeDiagnostics(s.diagnostics), s.phase, s.notifiedAt)
  }

  function EncodeStatus(s: Status): (j: Json)
  {
    Object(StatusMembers(s))
  }

  function Encode(r: Report): (j: Json)
  {
    Object(r.rest[StatusKey := EncodeStatus(r.status)])
  }

  // ---------- What the informer cache holds

  function StripStatus(s: Status): (t: Status)
  {
    s.(diagnostics := s.diagnostics.(lastLogLines := []))
  }

  /** StripCachedLogLines. */
  function Strip(r: Report): (t: Report)
  {
    r.(status := StripStatus(r.status))
  }

  // ---------- The controller's patch

  /** The status after the controller's write; None for notifiedAt means the patch does not mention it. */
  function MarkProcessed(s: Status, notifiedAt: Option<Time>): (t: Status)
  {
    s.(phase := Processed, notifiedAt := if notifiedAt.Some? then notifiedAt else s.notifiedAt)
  }

  /** The merge patch sent by a controller that holds `seen` and wants it Processed with the given notifiedAt. */
  function ControllerPatch(seen: Report, notifiedAt: Option<Time>): (p: Json)
  {
    Diff(Encode(seen), Encode(seen.(status := seen.status.(phase := Processed, notifiedAt := notifiedAt))))
  }

  function StatusPatch(m: map<Name, Json>): (p: Json)
  {
    Object(map[StatusKey := Object(m)])
  }

  /** What the controller's patch says under "status". */
  function ProcessedMembers(n: Option<Time>): (m: map<Name, Json>)
  {
    WithNotifiedAt(map[PhaseKey := Scalar(PhaseName(Processed))], n)
  }

  /** What the agent's patch says under "status". */
  function AttachedMembers(d: Diagnostics): (m: map<Name, Json>)
  {
    map[DiagnosticsKey := EncodeDiagnostics(d), PhaseKey := Scalar(PhaseName(Pending))]
  }

  lemma ChangedMembers(d: Json, p: Phase, n0: Option<Time>, n: Option<Time>)
    requires p != Processed && (n == n0 || n0.None?)
    ensures var before, after := MembersOf(d, p, n0), MembersOf(d, Processed, n);
            && before.Keys <= after.Keys
            && before != after
            && (forall k | k in before && before[k] != after[k] :: !after[k].Object?)
            && Changed(before, after) == ProcessedMembers(if n == n0 then None else n)
  {
    var before, after := MembersOf(d, p, n0), MembersOf(d, Processed, n);
    assert |PhaseName(Pending)| != |PhaseName(Processed)|;
    assert PhaseKey in before ==> before[PhaseKey] != after[PhaseKey];
    assert PhaseKey in Changed(before, after);
  }

  /** Diffing two reports that differ only in phase and notifiedAt mentions nothing else. */
  lemma ControllerPatchShape(seen: Report, n: Option<Time>)
    requires seen.status.phase != Processed && (n == seen.status.notifiedAt || seen.status.notifiedAt.None?)
    ensures ControllerPatch(seen, n)
         == StatusPatch(ProcessedMembers(if n == seen.status.notifiedAt then None else n))
  {
    var next := seen.status.(phase := Processed, notifiedAt := n);
    ChangedMembers(EncodeDiagnostics(seen.status.diagnostics), seen.status.phase, seen.status.notifiedAt, n);
    DiffWhole(StatusMembers(seen.status), StatusMembers(next));
    DiffOneMember(seen.rest, StatusKey, EncodeStatus(seen.status), EncodeStatus(next));
  }

  /** The patch carries the notification time in whole seconds either way. */
  lemma StampedMembers(n: Option<Time>)
    ensures ProcessedMembers(Stamp(n)) == ProcessedMembers(n)
  {
    if n.Some? {
      WholeSecondOnce(n.value);
    }
  }

  /** A cached copy without log lines yields the very patch a full copy would. */
  lemma StrippedPatchIsFullPatch(seen: Report, n: Option<Time>)
    requires seen.status.phase != Processed && (n == seen.status.notifiedAt || seen.status.notifiedAt.None?)
    ensures ControllerPatch(Strip(seen), n) == ControllerPatch(seen, n)
  {
    ControllerPatchShape(seen, n);
    ControllerPatchShape(Strip(seen), n);
  }

  /** Whatever the server holds by then, the controller's patch changes phase and notifiedAt and nothing else. */
  lemma ControllerPatchEffect(seen: Report, n: Option<Time>, stored: Report)
    requires seen.status.phase != Processed && (n == seen.status.notifiedAt || seen.status.notifiedAt.None?)
    ensures Merge(Encode(stored), ControllerPatch(Strip(seen), n))
         == Encode(stored.(status :=
              MarkProcessed(stored.status, if n == seen.status.notifiedAt then None else Stamp(n))))
  {
    var m := if n == seen.status.notifiedAt then None else Stamp(n);
    ControllerPatchShape(Strip(seen), n);
    StampedMembers(n);
    MergeProcessed(stored.status, m);
    MergeOneMember(stored.rest, StatusKey, EncodeStatus(stored.status), Object(ProcessedMembers(m)));
  }

  lemma MergeProcessed(s: Status, m: Option<Time>)
    ensures Merge(EncodeStatus(s), Object(ProcessedMembers(m))) == EncodeStatus(MarkProcessed(s, m))
  {
    MergeAtoms(StatusMembers(s), ProcessedMembers(m));
    UpdatedMembers(EncodeDiagnostics(s.diagnostics), s.phase, s.notifiedAt, m);
  }

  lemma UpdatedMembers(d: Json, p: Phase, n: Option<Time>, m: Option<Time>)
    ensures MembersOf(d, p, n) + ProcessedMembers(m) == MembersOf(d, Processed, if m.Some? then m else n)
  {
  }

  // ---------- The agent's patch

  /** The status after the agent's write onto a status that carries no diagnostics yet. */
  function AttachDiagnostics(s: Status, d: Diagnostics): (t: Status)
  {
    s.(diagnostics := d, phase := Pending)
  }

  /** The agent's patch, less the resourceVersion precondition that accompanies it. */
  function AgentPatch(created: Report, d: Diagnostics): (p: Json)
  {
    Diff(Encode(created), Encode(created.(status := Status(d, Pending, None))))
  }

  lemma AgentPatchShape(created: Report, d: Diagnostics)
    requires created.status == EMPTY_STATUS && OomContextKey in d.figures
    ensures AgentPatch(created, d)
         == StatusPatch(AttachedMembers(d))
  {
    var before, after := EncodeStatus(EMPTY_STATUS), EncodeStatus(Status(d, Pending, None));
    var want := AttachedMembers(d);
    var none := EncodeDiagnostics(NO_DIAGNOSTICS);
    assert OomContextKey in EncodeDiagnostics(d).members && none.members == map[];
    assert Changed(map[], EncodeDiagnostics(d).members) == EncodeDiagnostics(d).members;
    DiffWhole(map[], EncodeDiagnostics(d).members);
    assert before.members == map[DiagnosticsKey := none] && after.members == want;
    assert Changed(before.members, want) == want;
    DiffWhole(before.members, want);
    assert PhaseKey in after.members && PhaseKey !in before.members;
    DiffOneMember(created.rest, StatusKey, before, after);
  }

  /** Onto a status without diagnostics, the agent's patch attaches exactly the captured diagnostics. */
  lemma AgentPatchEffect(created: Report, d: Diagnostics, stored: Report)
    requires created.status == EMPTY_STATUS && OomContextKey in d.figures && WellFormedDiagnostics(d)
    requires stored.status.diagnostics == NO_DIAGNOSTICS
    ensures Merge(Encode(stored), AgentPatch(created, d))
         == Encode(stored.(status := AttachDiagnostics(stored.status, d)))
  {
    AgentPatchShape(created, d);
    var p := AttachedMembers(d);
    MergeAttached(stored.status, d);
    MergeOneMember(stored.rest, StatusKey, EncodeStatus(stored.status), Object(p));
  }

  lemma MergeAttached(s: Status, d: Diagnostics)
    requires WellFormedDiagnostics(d) && s.diagnostics == NO_DIAGNOSTICS
    ensures Merge(EncodeStatus(s), Object(AttachedMembers(d)))
         == EncodeStatus(AttachDiagnostics(s, d))
  {
    var none := EncodeDiagnostics(NO_DIAGNOSTICS);
    MergeFresh(d);
    MergeReplacing(MembersOf(none, s.phase, s.notifiedAt), EncodeDiagnostics(d));
    ReplacedMembers(none, s.phase, s.notifiedAt, EncodeDiagnostics(d));
  }

  lemma MergeReplacing(m: map<Name, Json>, e: Json)
    requires DiagnosticsKey in m && e.Object? && Merge(m[DiagnosticsKey], e) == e
    ensures var p := map[DiagnosticsKey := e, PhaseKey := Scalar(PhaseName(Pending))];
            Merge(Object(m), Object(p)) == Object(m + p)
  {
    MergeWhole(m, map[DiagnosticsKey := e, PhaseKey := Scalar(PhaseName(Pending))]);
  }

  lemma ReplacedMembers(d: Json, p: Phase, n: Option<Time>, e: Json)
    ensures MembersOf(d, p, n) + map[DiagnosticsKey := e, PhaseKey := Scalar(PhaseName(Pending))]
            == MembersOf(e, Pending, n)
  {
  }

  lemma MergeFresh(d: Diagnostics)
    requires WellFormedDiagnostics(d)
    ensures Merge(EncodeDiagnostics(NO_DIAGNOSTICS), EncodeDiagnostics(d)) == EncodeDiagnostics(d)
  {
    var m := EncodeDiagnostics(d).members;
    assert EncodeDiagnostics(NO_DIAGNOSTICS).members == map[];
    forall k | k in m ensures Merge(Null, m[k]) == m[k] {
      MergeIntoAtom(Null, m[k]);
    }
    MergeWhole(map[], m);
    assert map[] + m == m;
  }
}
