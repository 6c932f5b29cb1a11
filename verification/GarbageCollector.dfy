/** deleteExpiredReports: one garbage-collection pass over the listed reports. */
module GarbageCollector {
  import opened Bytes
  import opened Clock

  const MAX_INT64 := 0x7FFF_FFFF_FFFF_FFFF
  const HOUR := 3600 * SECOND
  const MAX_TTL_HOURS := 24 * 365 * 10

  /** A listed report: its identity and its creation timestamp, in nanoseconds. */
  datatype Report = Report(id: nat, created: Time)

  // ---------- The retention duration

  /** A product as Go's int64 computes it, modulo 2^64. */
  function WrapInt64(n: int): (r: int)
    ensures -MAX_INT64 - 1 <= r <= MAX_INT64
  {
    var m := n % 0x1_0000_0000_0000_0000;
    if m > MAX_INT64 then m - 0x1_0000_0000_0000_0000 else m
  }

  function TTLDuration(hours: int): (d: int)
  {
    WrapInt64(hours * HOUR)
  }

  /** The duration is the one asked for exactly up to 2562047 hours, which every validated setting respects. */
  lemma TTLDoesNotOverflow(hours: int)
    requires hours >= 1
    ensures TTLDuration(hours) == hours * HOUR <==> hours <= 2_562_047
    ensures hours <= MAX_TTL_HOURS ==> TTLDuration(hours) == hours * HOUR > 0
    ensures TTLDuration(2_562_048) < 0
  {
    var full := 0x1_0000_0000_0000_0000;
    if hours <= 2_562_047 {
      assert 0 <= hours * HOUR <= MAX_INT64;
      assert (hours * HOUR) % full == hours * HOUR;
    } else {
      assert hours * HOUR > MAX_INT64;
    }
  }

  // ---------- Expiry

  /** time.Time.Sub, which saturates. */
  function Sub(a: Time, b: Time): (d: int)
  {
    if a - b > MAX_INT64 then MAX_INT64 else if a - b < -MAX_INT64 - 1 then -MAX_INT64 - 1 else a - b
  }

  predicate Expired(r: Report, now: Time, ttl: int) {
    Sub(now, r.created) > ttl
  }

  /** Saturation never changes the verdict, whatever the timestamps, for a duration that fits int64 with room. */
  lemma ExpiredIsExact(r: Report, now: Time, ttl: int)
    requires -MAX_INT64 - 1 <= ttl < MAX_INT64
    ensures Expired(r, now, ttl) <==> now - r.created > ttl
  {
  }

  // ---------- What a pass does, given the reports oldest first

  predicate OldestFirst(items: seq<Report>) {
    forall i, j :: 0 <= i < j < |items| ==> items[i].created <= items[j].created
  }

  function LiveCount(items: seq<Report>, now: Time, ttl: int): (n: nat)
    ensures n <= |items|
  {
    if items == [] then 0 else LiveCount(DropLast(items), now, ttl) + if Expired(Last(items), now, ttl) then 0 else 1
  }

  function OverCap(live: nat, maxReports: int): (n: nat)
  {
    if maxReports > 0 && live > maxReports then live - maxReports else 0
  }

  /** Whether the i-th report is deleted when the first `trim` live ones are to go. */
  predicate Doomed(items: seq<Report>, now: Time, ttl: int, trim: nat, i: nat)
    requires i < |items|
  {
    Expired(items[i], now, ttl) || LiveCount(items[..i], now, ttl) < trim
  }

  function Attempts(items: seq<Report>, now: Time, ttl: int, trim: nat): (r: seq<Report>)
  {
    if items == [] then []
    else Attempts(DropLast(items), now, ttl, trim)
         + if Doomed(items, now, ttl, trim, |items| - 1) then [Last(items)] else []
  }

  function Spared(items: seq<Report>, now: Time, ttl: int, trim: nat): (r: seq<Report>)
  {
    if items == [] then []
    else Spared(DropLast(items), now, ttl, trim)
         + if Doomed(items, now, ttl, trim, |items| - 1) then [] else [Last(items)]
  }

  /** gone and kept share out all between them. */
  predicate Shared(gone: seq<Report>, kept: seq<Report>, all: seq<Report>) {
    multiset(gone) + multiset(kept) == multiset(all)
  }

  lemma SharedNext(gone: seq<Report>, kept: seq<Report>, all: seq<Report>, x: Report)
    requires Shared(gone, kept, all)
    ensures Shared(gone + [x], kept, all + [x]) && Shared(gone, kept + [x], all + [x])
  {
  }

  /** Every report is attempted once or spared, none both. */
  lemma {:induction false} AttemptedOrSpared(items: seq<Report>, now: Time, ttl: int, trim: nat)
    ensures Shared(Attempts(items, now, ttl, trim), Spared(items, now, ttl, trim), items)
  {
    if items != [] {
      var init, x := DropLast(items), Last(items);
      var gone, kept := Attempts(init, now, ttl, trim), Spared(init, now, ttl, trim);
      AttemptedOrSpared(init, now, ttl, trim);
      SharedNext(gone, kept, init, x);
      assert items == init + [x];
      if Doomed(items, now, ttl, trim, |items| - 1) {
        assert Attempts(items, now, ttl, trim) == gone + [x] && Spared(items, now, ttl, trim) == kept;
      } else {
        assert Attempts(items, now, ttl, trim) == gone && Spared(items, now, ttl, trim) == kept + [x];
      }
    }
  }

  /** The attempts are the expired reports and as many live ones as were to be trimmed. */
  lemma {:induction false} PassCounts(items: seq<Report>, now: Time, ttl: int, trim: nat)
    ensures var live := LiveCount(items, now, ttl);
            && |Spared(items, now, ttl, trim)| == (if live > trim then live - trim else 0)
            && |Attempts(items, now, ttl, trim)| == |items| - live + (if live > trim then trim else live)
  {
    if items != [] {
      PassCounts(DropLast(items), now, ttl, trim);
    }
  }

  lemma {:induction false} SparedAreLive(items: seq<Report>, now: Time, ttl: int, trim: nat)
    ensures forall r <- Spared(items, now, ttl, trim) :: r in items && !Expired(r, now, ttl)
    ensures forall r <- Attempts(items, now, ttl, trim) :: r in items
  {
    if items != [] {
      SparedAreLive(DropLast(items), now, ttl, trim);
    }
  }

  /** No spared report is older than a live one that was trimmed. */
  lemma {:induction false} NewestAreSpared(items: seq<Report>, now: Time, ttl: int, trim: nat, trimmed: Report,
                                           kept: Report)
    requires OldestFirst(items)
    requires trimmed in Attempts(items, now, ttl, trim) && !Expired(trimmed, now, ttl) &&
             kept in Spared(items, now, ttl, trim)
    ensures trimmed.created <= kept.created
  {
    var init, last := DropLast(items), Last(items);
    PassCounts(init, now, ttl, trim);
    SparedAreLive(init, now, ttl, trim);
    if trimmed in Attempts(init, now, ttl, trim) && kept in Spared(init, now, ttl, trim) {
      NewestAreSpared(init, now, ttl, trim, trimmed, kept);
    } else if kept !in Spared(init, now, ttl, trim) {
      assert kept == last;
      assert trimmed in init;
    }
  }

  // ---------- The pass

  /** How many live reports a pass over this list trims. */
  function Trim(items: seq<Report>, now: Time, ttl: int, maxReports: int): (n: nat)
  {
    OverCap(LiveCount(items, now, ttl), maxReports)
  }

  lemma {:induction false} LiveCountPermutes(a: seq<Report>, b: seq<Report>, now: Time, ttl: int)
    requires multiset(a) == multiset(b)
    ensures LiveCount(a, now, ttl) == LiveCount(b, now, ttl)
    decreases |a|
  {
    assert |multiset(a)| == |a| && |multiset(b)| == |b|;
    if a != [] {
      var x := Last(a);
      RemoveOne(a, |a| - 1);
      assert a[..|a| - 1] + a[|a|..] == DropLast(a);
      assert x in multiset(a);
      assert x in b;
      var i :| 0 <= i < |b| && b[i] == x;
      RemoveOne(b, i);
      LiveCountWithout(b, i, now, ttl);
      LiveCountPermutes(DropLast(a), b[..i] + b[i + 1..], now, ttl);
    }
  }

  lemma RemoveOne(b: seq<Report>, i: nat)
    requires i < |b|
    ensures multiset(b[..i] + b[i + 1..]) == multiset(b) - multiset{b[i]}
  {
    assert b == b[..i] + [b[i]] + b[i + 1..];
  }

  lemma {:induction false} LiveCountWithout(b: seq<Report>, i: nat, now: Time, ttl: int)
    requires i < |b|
    ensures LiveCount(b, now, ttl) == LiveCount(b[..i] + b[i + 1..], now, ttl)
            + if Expired(b[i], now, ttl) then 0 else 1
  {
    if i == |b| - 1 {
      assert b[..i] + b[i + 1..] == DropLast(b);
    } else {
      LiveCountWithout(DropLast(b), i, now, ttl);
      assert DropLast(b[..i] + b[i + 1..]) == DropLast(b)[..i] + DropLast(b)[i + 1..];
    }
  }

  /** What is left when every delete succeeds, in whatever order the sort left reports of equal age: the newest
      min(live, cap) unexpired reports (all of the live ones without a cap), and nothing expired. */
  lemma SurvivorsAreTheNewest(listed: seq<Report>, items: seq<Report>, now: Time, ttl: int, maxReports: nat)
    requires OldestFirst(items) && multiset(items) == multiset(listed)
    ensures var kept := Spared(items, now, ttl, Trim(items, now, ttl, maxReports));
            var gone := Attempts(items, now, ttl, Trim(items, now, ttl, maxReports));
            var live := LiveCount(listed, now, ttl);
            && Shared(gone, kept, listed)
            && |kept| == (if maxReports > 0 && live > maxReports then maxReports else live)
            && (forall r <- kept :: !Expired(r, now, ttl))
            && (forall r, k :: r in gone && !Expired(r, now, ttl) && k in kept ==> r.created <= k.created)
  {
    var trim := Trim(items, now, ttl, maxReports);
    AttemptedOrSpared(items, now, ttl, trim);
    PassCounts(items, now, ttl, trim);
    SparedAreLive(items, now, ttl, trim);
    LiveCountPermutes(items, listed, now, ttl);
    forall r, k | r in Attempts(items, now, ttl, trim) && !Expired(r, now, ttl) && k in Spared(items, now, ttl, trim)
      ensures r.created <= k.created
    {
      NewestAreSpared(items, now, ttl, trim, r, k);
    }
  }

  lemma {:induction false} AllLive(items: seq<Report>, now: Time, ttl: int)
    requires forall i :: 0 <= i < |items| ==> !Expired(items[i], now, ttl)
    ensures LiveCount(items, now, ttl) == |items|
  {
    if items != [] {
      AllLive(DropLast(items), now, ttl);
    }
  }

  /** A second pass at the same instant over what the first one left attempts nothing. */
  lemma SecondPassIsIdle(items: seq<Report>, again: seq<Report>, now: Time, ttl: int, maxReports: nat)
    requires OldestFirst(items) && OldestFirst(again)
    requires multiset(again) == multiset(Spared(items, now, ttl, Trim(items, now, ttl, maxReports)))
    ensures Attempts(again, now, ttl, Trim(again, now, ttl, maxReports)) == []
  {
    var trim := Trim(items, now, ttl, maxReports);
    var kept := Spared(items, now, ttl, trim);
    PassCounts(items, now, ttl, trim);
    SparedAreLive(items, now, ttl, trim);
    forall i | 0 <= i < |again| ensures !Expired(again[i], now, ttl) {
      assert again[i] in multiset(kept);
    }
    AllLive(again, now, ttl);
    assert |multiset(again)| == |multiset(kept)|;
    PassCounts(again, now, ttl, Trim(again, now, ttl, maxReports));
  }

  // ---------- Deletes that fail

  datatype Reply = Deleted | AlreadyGone | Failed

  function Replies(attempts: seq<Report>, reply: Report -> Reply, kind: Reply): (n: nat)
    ensures n <= |attempts|
  {
    if attempts == [] then 0
    else Replies(DropLast(attempts), reply, kind) + if reply(Last(attempts)) == kind then 1 else 0
  }

  /** deletions + already gone + failures account for every attempt. */
  lemma {:induction false} RepliesAddUp(attempts: seq<Report>, reply: Report -> Reply)
    ensures Replies(attempts, reply, Deleted) + Replies(attempts, reply, AlreadyGone) + Replies(attempts, reply, Failed)
            == |attempts|
  {
    if attempts != [] {
      RepliesAddUp(DropLast(attempts), reply);
    }
  }

  /** The attempts whose delete failed, which are still there after the pass. */
  function StillThere(attempts: seq<Report>, reply: Report -> Reply): (r: seq<Report>)
    ensures |r| == Replies(attempts, reply, Failed)
  {
    if attempts == [] then []
    else StillThere(DropLast(attempts), reply) + if reply(Last(attempts)) == Failed then [Last(attempts)] else []
  }

  lemma {:induction false} LiveCountConcat(a: seq<Report>, b: seq<Report>, now: Time, ttl: int)
    ensures LiveCount(a + b, now, ttl) == LiveCount(a, now, ttl) + LiveCount(b, now, ttl)
  {
    if b == [] {
      assert a + b == a;
    } else {
      assert DropLast(a + b) == a + DropLast(b);
      LiveCountConcat(a, DropLast(b), now, ttl);
    }
  }

  /** Unexpired reports left after a pass: those it was to spare and those it failed to delete, no others. Over a
      full collection that exceeds the cap by exactly the unexpired reports it failed to delete. */
  lemma FailuresBoundTheExcess(items: seq<Report>, now: Time, ttl: int, maxReports: nat, reply: Report -> Reply)
    requires maxReports > 0
    ensures var trim := Trim(items, now, ttl, maxReports);
            var attempts := Attempts(items, now, ttl, trim);
            var left := LiveCount(Spared(items, now, ttl, trim) + StillThere(attempts, reply), now, ttl);
            var live := LiveCount(items, now, ttl);
            left == (if live > maxReports then maxReports else live) + LiveCount(StillThere(attempts, reply), now, ttl)
  {
    var trim := Trim(items, now, ttl, maxReports);
    var kept := Spared(items, now, ttl, trim);
    PassCounts(items, now, ttl, trim);
    SparedAreLive(items, now, ttl, trim);
    AllLive(kept, now, ttl);
    LiveCountConcat(kept, StillThere(Attempts(items, now, ttl, trim), reply), now, ttl);
  }

  // ---------- deleteExpiredReports

  /** sort.Slice by creation time; nothing is promised about reports of equal age. */
  method SortOldestFirst(a: array<Report>)
    modifies a
    ensures OldestFirst(a[..]) && multiset(a[..]) == multiset(old(a[..]))
  {
    for i := 0 to a.Length
      invariant OldestFirst(a[..i])
      invariant multiset(a[..]) == multiset(old(a[..]))
    {
      Insert(a, i);
    }
    assert a[..a.Length] == a[..];
  }

  /** Move a[i] down to its place among the sorted a[..i]. */
  method Insert(a: array<Report>, i: nat)
    requires i < a.Length && OldestFirst(a[..i])
    modifies a
    ensures OldestFirst(a[..i + 1]) && multiset(a[..]) == multiset(old(a[..]))
  {
    var j := i;
    while j > 0 && a[j].created < a[j - 1].created
      invariant 0 <= j <= i
      invariant forall p, q :: 0 <= p < q <= i && q != j ==> a[p].created <= a[q].created
      invariant multiset(a[..]) == multiset(old(a[..]))
    {
      SwapDown(a, j);
      j := j - 1;
    }
  }

  method SwapDown(a: array<Report>, j: nat)
    requires 0 < j < a.Length
    modifies a
    ensures a[j] == old(a[j - 1]) && a[j - 1] == old(a[j])
    ensures forall k :: 0 <= k < a.Length && k != j && k != j - 1 ==> a[k] == old(a[k])
    ensures multiset(a[..]) == multiset(old(a[..]))
  {
    a[j - 1], a[j] := a[j], a[j - 1];
  }

  /** One pass: attempts lists the deletes issued, in order; sorted is the order the sort left. A pass whose
      listing failed attempts nothing and reports the error. */
  method DeleteExpiredReports(listing: Option<seq<Report>>, now: Time, ttl: int, maxReports: int,
                              reply: Report -> Reply)
    returns (deleted: nat, failed: bool, attempts: seq<Report>, ghost sorted: seq<Report>)
    ensures listing.None? ==> deleted == 0 && failed && attempts == []
    ensures listing.Some? ==>
      && OldestFirst(sorted) && multiset(sorted) == multiset(listing.value)
      && attempts == Attempts(sorted, now, ttl, Trim(sorted, now, ttl, maxReports))
      && deleted == Replies(attempts, reply, Deleted)
      && (failed <==> Replies(attempts, reply, Failed) > 0)
  {
    if listing.None? {
      return 0, true, [], [];
    }
    var listed := listing.value;
    var items := new Report[|listed|](i requires 0 <= i < |listed| => listed[i]);
    assert items[..] == listed;
    SortOldestFirst(items);
    sorted := items[..];
    var live := CountLive(items, now, ttl);
    var overCap := 0;
    if maxReports > 0 && live > maxReports {
      overCap := live - maxReports;
    }
    deleted, failed, attempts := DeleteDoomed(items, now, ttl, overCap, reply);
  }

  method CountLive(items: array<Report>, now: Time, ttl: int) returns (live: nat)
    ensures live == LiveCount(items[..], now, ttl)
  {
    live := 0;
    for i := 0 to items.Length
      invariant live == LiveCount(items[..i], now, ttl)
    {
      assert DropLast(items[..i + 1]) == items[..i];
      if Sub(now, items[i].created) <= ttl {
        live := live + 1;
      }
    }
    assert items[..items.Length] == items[..];
  }

  method DeleteDoomed(items: array<Report>, now: Time, ttl: int, overCap: nat, reply: Report -> Reply)
    returns (deleted: nat, failed: bool, attempts: seq<Report>)
    ensures attempts == Attempts(items[..], now, ttl, overCap)
    ensures deleted == Replies(attempts, reply, Deleted)
    ensures failed <==> Replies(attempts, reply, Failed) > 0
  {
    deleted, failed, attempts := 0, false, [];
    var remainingTrim := overCap;
    for i := 0 to items.Length
      invariant attempts == Attempts(items[..i], now, ttl, overCap)
      invariant remainingTrim == if LiveCount(items[..i], now, ttl) < overCap
                then overCap - LiveCount(items[..i], now, ttl) else 0
      invariant deleted == Replies(attempts, reply, Deleted)
      invariant failed <==> Replies(attempts, reply, Failed) > 0
    {
      var report := items[i];
      assert DropLast(items[..i + 1]) == items[..i] && Last(items[..i + 1]) == report;
      var expired := Sub(now, report.created) > ttl;
      var trimmed := false;
      if !expired && remainingTrim > 0 {
        trimmed := true;
        remainingTrim := remainingTrim - 1;
      }
      if !expired && !trimmed {
        continue;
      }
      assert DropLast(attempts + [report]) == attempts;
      attempts := attempts + [report];
      match reply(report) {
        case AlreadyGone =>
        case Failed => failed := true;
        case Deleted => deleted := deleted + 1;
      }
    }
    assert items[..items.Length] == items[..];
  }
}
