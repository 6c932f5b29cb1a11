/** reportCooldown: repeat reports for one container are suppressed within a window. */
module Cooldown {
  import opened Bytes
  import opened Clock

  type Key = Text

  /** A crash of the container `key` at instant `at`. */
  datatype Crash = Crash(key: Key, at: Time)

  // ---------- The specification: a map that never forgets

  /** Whether a crash may be reported, given when each container was last reported. */
  predicate Permits(window: int, last: map<Key, Time>, crash: Crash) {
    window <= 0 || crash.key !in last || crash.at - last[crash.key] >= window
  }

  /** The last report of each container, over the whole history, never evicting. */
  function LastReports(window: int, crashes: seq<Crash>): (last: map<Key, Time>)
  {
    if crashes == [] then map[]
    else
      var last, crash := LastReports(window, DropLast(crashes)), Last(crashes);
      if Permits(window, last, crash) then last[crash.key := crash.at] else last
  }

  function Allowed(window: int, crashes: seq<Crash>, i: nat): (ok: bool)
    requires i < |crashes|
  {
    Permits(window, LastReports(window, crashes[..i]), crashes[i])
  }

  predicate Chronological(crashes: seq<Crash>) {
    forall i, j :: 0 <= i < j < |crashes| ==> crashes[i].at <= crashes[j].at
  }

  lemma {:induction false} LastReportsAreReports(window: int, crashes: seq<Crash>, key: Key) returns (i: nat)
    requires key in LastReports(window, crashes)
    ensures i < |crashes| && crashes[i] == Crash(key, LastReports(window, crashes)[key]) && Allowed(window, crashes, i)
    ensures forall j :: i < j < |crashes| && crashes[j].key == key ==> !Allowed(window, crashes, j)
  {
    var init, crash := DropLast(crashes), Last(crashes);
    var n := |crashes| - 1;
    assert crashes[..n] == init;
    if crash.key == key && Permits(window, LastReports(window, init), crash) {
      i := n;
    } else {
      i := LastReportsAreReports(window, init, key);
      forall j | 0 <= j < n ensures Allowed(window, init, j) == Allowed(window, crashes, j) {
        assert init[..j] == crashes[..j];
      }
    }
  }

  lemma {:induction false} ReportsAreRemembered(window: int, crashes: seq<Crash>, i: nat)
    requires i < |crashes| && Allowed(window, crashes, i) && Chronological(crashes)
    ensures crashes[i].key in LastReports(window, crashes)
    ensures LastReports(window, crashes)[crashes[i].key] >= crashes[i].at
  {
    var init, n := DropLast(crashes), |crashes| - 1;
    assert crashes[..n] == init;
    if i < n {
      assert init[..i] == crashes[..i];
      ReportsAreRemembered(window, init, i);
    }
  }

  /** Two reports of one container are at least the window apart. */
  lemma ReportsAreSpaced(window: int, crashes: seq<Crash>, i: nat, j: nat)
    requires Chronological(crashes) && i < j < |crashes| && crashes[i].key == crashes[j].key && window > 0
    requires Allowed(window, crashes, i) && Allowed(window, crashes, j)
    ensures crashes[j].at - crashes[i].at >= window
  {
    var before := crashes[..j];
    assert before[..i] == crashes[..i];
    ReportsAreRemembered(window, before, i);
  }

  // ---------- The code: a map that evicts what has aged out

  /** The entries younger than the window at `now`. */
  function Fresh(window: int, last: map<Key, Time>, now: Time): (r: map<Key, Time>)
  {
    map k | k in last && now - last[k] < window :: last[k]
  }

  /** The map after one call: unchanged unless the crash is reported, and then without what has aged out. */
  function Recorded(window: int, last: map<Key, Time>, crash: Crash): (r: map<Key, Time>)
  {
    if window > 0 && Permits(window, last, crash) then Fresh(window, last, crash.at)[crash.key := crash.at] else last
  }

  class ReportCooldown {
    const window: int
    var last: map<Key, Time>

    constructor (window: int)
      ensures this.window == window && last == map[]
    {
      this.window := window;
      last := map[];
    }

    /** allow. */
    method Allow(key: Key, now: Time) returns (ok: bool)
      modifies this`last
      ensures ok == Permits(window, old(last), Crash(key, now))
      ensures last == Recorded(window, old(last), Crash(key, now))
      // After an allowed call nothing as old as the window is retained.
      ensures window > 0 && ok ==> forall k <- last :: now - last[k] < window
    {
      if window <= 0 {
        return true;
      }
      if key in last && now - last[key] < window {
        return false;
      }
      var keys := last.Keys;
      while keys != {}
        invariant keys <= old(last).Keys
        invariant last == map k | k in old(last) && (k in keys || now - old(last)[k] < window) :: old(last)[k]
        decreases |keys|
      {
        var k :| k in keys;
        if now - last[k] >= window {
          last := last - {k};
        }
        keys := keys - {k};
      }
      last := last[key := now];
      return true;
    }
  }

  /** The map after a history of calls, by the contract of Allow. */
  function Retained(window: int, crashes: seq<Crash>): (cached: map<Key, Time>)
  {
    if crashes == [] then map[] else Recorded(window, Retained(window, DropLast(crashes)), Last(crashes))
  }

  /** The evicting map holds entries of the full one, and all those still younger than the window at the last crash. */
  predicate Agrees(window: int, cached: map<Key, Time>, full: map<Key, Time>, crashes: seq<Crash>) {
    && (forall k :: k in cached ==> k in full && full[k] == cached[k])
    && (forall k :: k in full && k !in cached ==> crashes != [] && Last(crashes).at - full[k] >= window)
  }

  lemma StepAgrees(window: int, cached: map<Key, Time>, full: map<Key, Time>, before: seq<Crash>, crash: Crash)
    requires window > 0 && Agrees(window, cached, full, before) && full == LastReports(window, before)
    requires before != [] ==> Last(before).at <= crash.at
    ensures Permits(window, cached, crash) == Permits(window, full, crash)
    ensures Agrees(window, Recorded(window, cached, crash), LastReports(window, before + [crash]), before + [crash])
  {
    assert DropLast(before + [crash]) == before;
  }

  lemma {:induction false} RetainedAgrees(window: int, crashes: seq<Crash>)
    requires window > 0 && Chronological(crashes)
    ensures Agrees(window, Retained(window, crashes), LastReports(window, crashes), crashes)
  {
    if crashes != [] {
      var init := DropLast(crashes);
      RetainedAgrees(window, init);
      StepAgrees(window, Retained(window, init), LastReports(window, init), init, Last(crashes));
      assert init + [Last(crashes)] == crashes;
    }
  }

  /** One more crash, no earlier than those before it. */
  lemma NextCrash(window: int, crashes: seq<Crash>, crash: Crash)
    requires Chronological(crashes) && forall i :: 0 <= i < |crashes| ==> crashes[i].at <= crash.at
    ensures Chronological(crashes + [crash])
    ensures Retained(window, crashes + [crash]) == Recorded(window, Retained(window, crashes), crash)
    ensures Permits(window, Retained(window, crashes), crash) == Permits(window, LastReports(window, crashes), crash)
  {
    assert DropLast(crashes + [crash]) == crashes;
    if window > 0 {
      RetainedAgrees(window, crashes);
      StepAgrees(window, Retained(window, crashes), LastReports(window, crashes), crashes, crash);
    }
  }

  /** On every chronological history the evicting map decides every crash as the map that never evicts. */
  lemma EvictionIsInvisible(window: int, crashes: seq<Crash>, i: nat)
    requires Chronological(crashes) && i < |crashes|
    ensures Permits(window, Retained(window, crashes[..i]), crashes[i]) == Allowed(window, crashes, i)
  {
    NextCrash(window, crashes[..i], crashes[i]);
  }

  // ---------- Out of order: exactly when eviction shows

  /** Crash r is the last report of its container in the history. */
  ghost predicate LastReport(window: int, crashes: seq<Crash>, r: nat) {
    && r < |crashes| && Allowed(window, crashes, r)
    && (forall m :: r < m < |crashes| && crashes[m].key == crashes[r].key ==> !Allowed(window, crashes, m))
  }

  /** A later crash, of any container, was reported when crash r had already aged out. */
  ghost predicate AgedOut(window: int, crashes: seq<Crash>, r: nat)
    requires r < |crashes|
  {
    exists j: nat :: Ages(window, crashes, r, j)
  }

  /** Crash j is reported when crash r has aged out. */
  predicate Ages(window: int, crashes: seq<Crash>, r: nat, j: nat) {
    r < j < |crashes| && Allowed(window, crashes, j) && crashes[j].at - crashes[r].at >= window
  }

  /** Crash i comes within the window of its container's last report, but after a report past that window's end. */
  ghost predicate Overtaken(window: int, crashes: seq<Crash>, i: nat) {
    && i < |crashes|
    && exists r: nat ::
         && LastReport(window, crashes[..i], r) && AgedOut(window, crashes[..i], r)
         && crashes[r].key == crashes[i].key && crashes[i].at - crashes[r].at < window
  }

  /** The evicting map and the one that never evicts decide crash i alike. */
  predicate Alike(window: int, crashes: seq<Crash>, i: nat)
    requires i < |crashes|
  {
    Permits(window, Retained(window, crashes[..i]), crashes[i]) == Allowed(window, crashes, i)
  }

  lemma AllowedInPrefix(window: int, crashes: seq<Crash>, n: nat, i: nat)
    requires i < n <= |crashes|
    ensures Allowed(window, crashes[..n], i) == Allowed(window, crashes, i)
  {
    assert crashes[..n][..i] == crashes[..i];
  }

  /** The last report of a container is what the full map holds, and there is only one. */
  lemma {:induction false} LastReportIsHeld(window: int, crashes: seq<Crash>, r: nat)
    requires LastReport(window, crashes, r)
    ensures crashes[r].key in LastReports(window, crashes) &&
            LastReports(window, crashes)[crashes[r].key] == crashes[r].at
    decreases |crashes|
  {
    var n := |crashes| - 1;
    var init := crashes[..n];
    assert init == DropLast(crashes) && crashes[n] == Last(crashes);
    if r < n {
      forall m | r <= m < n ensures Allowed(window, init, m) == Allowed(window, crashes, m) {
        AllowedInPrefix(window, crashes, n, m);
      }
      assert LastReport(window, init, r);
      LastReportIsHeld(window, init, r);
    }
  }

  /** While the decisions agree, the evicting map is the full one without the reports that have aged out. */
  ghost predicate Prunes(window: int, cached: map<Key, Time>, crashes: seq<Crash>) {
    && (forall k :: k in cached ==> k in LastReports(window, crashes) && LastReports(window, crashes)[k] == cached[k])
    && (forall r: nat :: LastReport(window, crashes, r) ==>
        (crashes[r].key in cached <==> !AgedOut(window, crashes, r)))
  }

  lemma PrunesNext(window: int, crashes: seq<Crash>, n: nat)
    requires window > 0 && n < |crashes|
    requires Prunes(window, Retained(window, crashes[..n]), crashes[..n]) && Alike(window, crashes, n)
    ensures Prunes(window, Retained(window, crashes[..n + 1]), crashes[..n + 1])
  {
    var init, next := crashes[..n], crashes[..n + 1];
    var cached := Retained(window, init);
    assert DropLast(next) == init && Last(next) == crashes[n];
    AllowedInPrefix(window, crashes, n + 1, n);
    forall r: nat | LastReport(window, next, r)
      ensures next[r].key in Retained(window, next) <==> !AgedOut(window, next, r)
    {
      if r < n {
        PrunesOld(window, crashes, n, r);
      }
    }
  }

  /** For a report made before crash n, one more crash prunes it exactly when it is reported past the window. */
  lemma PrunesOld(window: int, crashes: seq<Crash>, n: nat, r: nat)
    requires window > 0 && n < |crashes| && r < n
    requires Prunes(window, Retained(window, crashes[..n]), crashes[..n]) && Alike(window, crashes, n)
    requires LastReport(window, crashes[..n + 1], r)
    ensures crashes[r].key in Retained(window, crashes[..n + 1]) <==> !AgedOut(window, crashes[..n + 1], r)
  {
    var init, next := crashes[..n], crashes[..n + 1];
    assert DropLast(next) == init && Last(next) == crashes[n];
    forall m | 0 <= m < n ensures Allowed(window, init, m) == Allowed(window, next, m) {
      assert next[..n] == init;
      AllowedInPrefix(window, next, n, m);
    }
    AllowedInPrefix(window, crashes, n + 1, n);
    assert LastReport(window, init, r) by {
      forall m | r < m < n && init[m].key == init[r].key ensures !Allowed(window, init, m) {
        assert next[m].key == next[r].key;
      }
    }
    LastReportIsHeld(window, init, r);
    AgedOutNext(window, crashes, n, r);
    if Allowed(window, next, n) {
      assert next[n].key != next[r].key;
    }
  }

  lemma AgedOutNext(window: int, crashes: seq<Crash>, n: nat, r: nat)
    requires r < n < |crashes|
    ensures AgedOut(window, crashes[..n + 1], r)
       <==> AgedOut(window, crashes[..n], r) || (Allowed(window, crashes, n) && crashes[n].at - crashes[r].at >= window)
  {
    var init, next := crashes[..n], crashes[..n + 1];
    forall j: nat ensures Ages(window, next, r, j) <==> j <= n && Ages(window, crashes, r, j) {
      if j <= n {
        AllowedInPrefix(window, crashes, n + 1, j);
      }
    }
    forall j: nat ensures Ages(window, init, r, j) <==> j < n && Ages(window, crashes, r, j) {
      if j < n {
        AllowedInPrefix(window, crashes, n, j);
      }
    }
    if j: nat :| Ages(window, init, r, j) {
      assert Ages(window, next, r, j);
    }
    if j: nat :| Ages(window, next, r, j) {
      assert j < n ==> Ages(window, init, r, j);
    }
    if Ages(window, crashes, r, n) {
      assert Ages(window, next, r, n);
    }
  }

  lemma {:induction false} AlikePrunes(window: int, crashes: seq<Crash>, n: nat)
    requires window > 0 && n <= |crashes| && forall i :: 0 <= i < n ==> Alike(window, crashes, i)
    ensures Prunes(window, Retained(window, crashes[..n]), crashes[..n])
  {
    if n > 0 {
      AlikePrunes(window, crashes, n - 1);
      PrunesNext(window, crashes, n - 1);
    }
  }

  /** With the decisions before it alike, a crash is decided alike exactly unless it was overtaken. */
  lemma AlikeIffNotOvertaken(window: int, crashes: seq<Crash>, i: nat)
    requires window > 0 && i < |crashes| && Prunes(window, Retained(window, crashes[..i]), crashes[..i])
    ensures Alike(window, crashes, i) <==> !Overtaken(window, crashes, i)
  {
    var init, key := crashes[..i], crashes[i].key;
    if key in LastReports(window, init) {
      var r := LastReportsAreReports(window, init, key);
      assert LastReport(window, init, r);
    }
    if Overtaken(window, crashes, i) {
      var r: nat :| LastReport(window, init, r) && AgedOut(window, init, r)
                    && crashes[r].key == crashes[i].key && crashes[i].at - crashes[r].at < window;
      LastReportIsHeld(window, init, r);
    }
  }

  /** For every history, in order or not: eviction changes no decision exactly when no crash is overtaken. */
  lemma EvictionIsInvisibleIff(window: int, crashes: seq<Crash>)
    requires window > 0
    ensures (forall i :: 0 <= i < |crashes| ==> Alike(window, crashes, i))
       <==> (forall i :: 0 <= i < |crashes| ==> !Overtaken(window, crashes, i))
  {
    if forall i :: 0 <= i < |crashes| ==> Alike(window, crashes, i) {
      forall i | 0 <= i < |crashes| ensures !Overtaken(window, crashes, i) {
        AlikePrunes(window, crashes, i);
        AlikeIffNotOvertaken(window, crashes, i);
      }
    } else {
      var i := FirstUnlike(window, crashes, |crashes|);
      AlikePrunes(window, crashes, i);
      AlikeIffNotOvertaken(window, crashes, i);
    }
  }

  lemma {:induction false} FirstUnlike(window: int, crashes: seq<Crash>, n: nat) returns (i: nat)
    requires n <= |crashes| && exists i :: 0 <= i < n && !Alike(window, crashes, i)
    ensures i < n && !Alike(window, crashes, i) && forall j :: 0 <= j < i ==> Alike(window, crashes, j)
  {
    if j :| 0 <= j < n - 1 && !Alike(window, crashes, j) {
      i := FirstUnlike(window, crashes, n - 1);
    } else {
      i := n - 1;
    }
  }

  /** Out of order it can show: a crash of another container at a later instant evicts what an earlier one needs. */
  lemma EvictionNeedsChronology(window: int, key: Key, other: Key, start: Time) returns (crashes: seq<Crash>)
    requires window > 0 && key != other
    ensures |crashes| == 3 && Overtaken(window, crashes, 2) && !Alike(window, crashes, 2) && !Chronological(crashes)
  {
    crashes := [Crash(key, start), Crash(other, start + window), Crash(key, start)];
    var one, two := crashes[..1], crashes[..2];
    assert one == [crashes[0]] && two == [crashes[0], crashes[1]];
    assert DropLast(one) == [] && DropLast(two) == one && two[..0] == [] && two[..1] == one;
    assert LastReports(window, one) == map[key := start] && Retained(window, one) == map[key := start];
    assert Allowed(window, two, 0) && Allowed(window, two, 1);
    assert LastReport(window, two, 0) && Ages(window, two, 0, 1);
    assert LastReports(window, two) == map[key := start, other := start + window];
    assert Retained(window, two) == map[other := start + window];
    assert crashes[1].at > crashes[2].at;
  }
}
