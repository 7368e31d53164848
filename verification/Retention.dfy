/** Retention (internal/store/history_manager.go): what a key keeps over any run of saves and retention changes. */
module Retention {
  import opened Store
  import opened Ordering
  import opened History

  const DEFAULT_RETENTION := 100
  const MAX_RETENTION := 10000

  predicate ValidRetention(keep: int) {
    0 <= keep <= MAX_RETENTION
  }

  datatype State = State(table: Table, retention: nat)

  datatype Step = Save(snapshot: Snapshot) | Retain(keep: nat)

  /** One successful operation of the manager. */
  ghost function Do(m: State, step: Step): State {
    match step
    case Save(s) => m.(table := PruneKey(Insert(m.table, s), s.cluster, s.entry.key, m.retention))
    case Retain(keep) => State(Prune(m.table, keep), keep)
  }

  ghost function DoAll(m: State, steps: seq<Step>): State
    decreases |steps|
  {
    if steps == [] then m else DoAll(Do(m, steps[0]), steps[1..])
  }

  function SavedBy(step: Step, cluster: string, key: Bytes): set<int> {
    if step.Save? && step.snapshot.cluster == cluster && step.snapshot.entry.key == key
    then {step.snapshot.entry.modRevision} else {}
  }

  /** Every revision of the key that was saved, kept or not. */
  function EverSaved(steps: seq<Step>, cluster: string, key: Bytes): set<int> {
    if steps == [] then {} else SavedBy(steps[0], cluster, key) + EverSaved(steps[1..], cluster, key)
  }

  function Least(a: nat, b: nat): nat {
    if a == 0 then b else if b == 0 || a <= b then a else b
  }

  /** The smallest nonzero retention in force so far; 0 if there was none. */
  function Smallest(start: nat, steps: seq<Step>): nat
    decreases |steps|
  {
    if steps == [] then start else Smallest(InForce(start, steps[0]), steps[1..])
  }

  function InForce(least: nat, step: Step): nat {
    if step.Retain? then Least(least, step.keep) else least
  }

  lemma LatestGrows(s: set<int>, m: nat, n: nat)
    requires m <= n
    ensures Latest(s, m) <= Latest(s, n)
  {
    var d := Descending(s);
    forall x | x in Latest(s, m) ensures x in Latest(s, n) {
      assert x in Take(d, m);
      var i :| 0 <= i < |Take(d, m)| && d[i] == x;
      assert Take(d, n)[i] == x;
    }
  }

  /** What one key is promised: never more than the retention, nothing that was not saved, and always the
      newest `least` revisions ever saved (all of them if every retention so far was unlimited). */
  ghost predicate Promise(stored: set<int>, ever: set<int>, retention: nat, least: nat) {
    && stored <= ever
    && (retention > 0 ==> |stored| <= retention && 0 < least <= retention)
    && (if least == 0 then stored == ever else Latest(ever, least) <= stored)
  }

  lemma SaveKeepsPromise(stored: set<int>, ever: set<int>, retention: nat, least: nat, r: int)
    requires Promise(stored, ever, retention, least)
    ensures Promise(if retention == 0 then stored + {r} else Latest(stored + {r}, retention), ever + {r}, retention, least)
  {
    var all, have := ever + {r}, stored + {r};
    if least > 0 {
      forall x | x in Latest(all, least)
        ensures x in have && x in Latest(have, least)
      {
        if x != r { LatestOfSubset(ever, all, least, x); }
        LatestOfSubset(have, all, least, x);
      }
      if retention > 0 { LatestGrows(have, least, retention); }
    }
  }

  lemma RetainKeepsPromise(stored: set<int>, ever: set<int>, retention: nat, least: nat, keep: nat)
    requires Promise(stored, ever, retention, least)
    ensures Promise(if keep == 0 then stored else Latest(stored, keep), ever, keep, Least(least, keep))
  {
    var now := Least(least, keep);
    if keep > 0 {
      forall x | x in Latest(ever, now) ensures x in Latest(stored, keep) {
        if least > 0 { LatestGrows(ever, now, least); }
        LatestOfSubset(stored, ever, now, x);
        LatestGrows(stored, now, keep);
      }
    }
  }

  lemma StepRevisions(m: State, step: Step, cluster: string, key: Bytes)
    ensures var before, after := Revisions(m.table, cluster, key), Revisions(Do(m, step).table, cluster, key);
            match step
            case Retain(keep) => after == if keep == 0 then before else Latest(before, keep)
            case Save(s) =>
              if s.cluster == cluster && s.entry.key == key
              then after == if m.retention == 0 then before + {s.entry.modRevision}
                            else Latest(before + {s.entry.modRevision}, m.retention)
              else after == before
  {
    if step.Save? {
      var s := step.snapshot;
      var t := Insert(m.table, s);
      if s.cluster == cluster && s.entry.key == key {
        assert Revisions(t, cluster, key) == Revisions(m.table, cluster, key) + {s.entry.modRevision};
        if m.retention > 0 { PruneKeyRevisions(t, cluster, key, m.retention); }
      } else {
        assert Revisions(t, cluster, key) == Revisions(m.table, cluster, key);
        PruneKeyFrame(t, s.cluster, s.entry.key, m.retention, cluster, key);
      }
    }
  }

  lemma PromiseStep(m: State, step: Step, cluster: string, key: Bytes, ever: set<int>, least: nat)
    requires Promise(Revisions(m.table, cluster, key), ever, m.retention, least)
    ensures Promise(Revisions(Do(m, step).table, cluster, key), ever + SavedBy(step, cluster, key),
                    Do(m, step).retention, InForce(least, step))
  {
    var stored := Revisions(m.table, cluster, key);
    StepRevisions(m, step, cluster, key);
    match step
    case Retain(keep) =>
      RetainKeepsPromise(stored, ever, m.retention, least, keep);
      assert ever + {} == ever;
    case Save(s) =>
      if s.cluster == cluster && s.entry.key == key {
        SaveKeepsPromise(stored, ever, m.retention, least, s.entry.modRevision);
      } else {
        assert ever + {} == ever;
      }
  }

  lemma PromiseTail(m: State, steps: seq<Step>, cluster: string, key: Bytes, ever: set<int>, least: nat)
    requires Promise(Revisions(m.table, cluster, key), ever, m.retention, least) && steps != []
    ensures var e := DoAll(m, steps);
            Promise(Revisions(e.table, cluster, key), ever + EverSaved(steps, cluster, key), e.retention, Smallest(least, steps))
    decreases |steps|, 0
  {
    PromiseStep(m, steps[0], cluster, key, ever, least);
    PromiseHolds(Do(m, steps[0]), steps[1..], cluster, key, ever + SavedBy(steps[0], cluster, key), InForce(least, steps[0]));
    Unfold(m, steps, cluster, key, ever, least);
  }

  lemma Unfold(m: State, steps: seq<Step>, cluster: string, key: Bytes, ever: set<int>, least: nat)
    requires steps != []
    ensures DoAll(m, steps) == DoAll(Do(m, steps[0]), steps[1..])
    ensures Smallest(least, steps) == Smallest(InForce(least, steps[0]), steps[1..])
    ensures ever + EverSaved(steps, cluster, key) ==
              (ever + SavedBy(steps[0], cluster, key)) + EverSaved(steps[1..], cluster, key)
  {
  }

  lemma {:induction false} PromiseHolds(m: State, steps: seq<Step>, cluster: string, key: Bytes, ever: set<int>, least: nat)
    requires Promise(Revisions(m.table, cluster, key), ever, m.retention, least)
    ensures var e := DoAll(m, steps);
            Promise(Revisions(e.table, cluster, key), ever + EverSaved(steps, cluster, key), e.retention, Smallest(least, steps))
    decreases |steps|, 1
  {
    if steps == [] {
      assert ever + EverSaved(steps, cluster, key) == ever;
    } else {
      PromiseTail(m, steps, cluster, key, ever, least);
    }
  }

  /** What loading makes of a stored table: everything pruned to the stored retention. */
  ghost function Start(t: Table, keep: nat): State { State(Prune(t, keep), keep) }

  lemma StartPromise(t: Table, keep: nat, cluster: string, key: Bytes)
    ensures Promise(Revisions(Start(t, keep).table, cluster, key), Revisions(t, cluster, key), keep, keep)
  {
    var revs := Revisions(t, cluster, key);
    if keep > 0 {
      assert Revisions(Prune(t, keep), cluster, key) == Latest(revs, keep);
    }
  }

  /** From any stored table that was loaded, the empty one included, over any run and whatever order revisions
      arrive in: each key holds at most the current nonzero retention, and always the newest m revisions ever
      stored for it, m being the smallest nonzero retention that was in force. */
  lemma NewestAreNeverLost(t: Table, start: nat, steps: seq<Step>, cluster: string, key: Bytes)
    ensures var e := DoAll(Start(t, start), steps);
            var stored := Revisions(e.table, cluster, key);
            var ever := Revisions(t, cluster, key) + EverSaved(steps, cluster, key);
            var least := Smallest(start, steps);
            && stored <= ever
            && (e.retention > 0 ==> |stored| <= e.retention)
            && (if least == 0 then stored == ever else Latest(ever, least) <= stored)
  {
    StartPromise(t, start, cluster, key);
    PromiseHolds(Start(t, start), steps, cluster, key, Revisions(t, cluster, key), start);
  }

  /** "Ever saved" is what some step saved. */
  lemma {:induction false} EverSavedIff(steps: seq<Step>, cluster: string, key: Bytes, r: int)
    ensures r in EverSaved(steps, cluster, key) <==> exists i :: 0 <= i < |steps| && Saves(steps[i], cluster, key, r)
  {
    if steps != [] {
      EverSavedIff(steps[1..], cluster, key, r);
      if i :| 0 <= i < |steps[1..]| && Saves(steps[1..][i], cluster, key, r) { assert Saves(steps[i + 1], cluster, key, r); }
      if i :| 0 <= i < |steps| && Saves(steps[i], cluster, key, r) {
        assert i == 0 || steps[1..][i - 1] == steps[i];
      }
    }
  }

  predicate Saves(step: Step, cluster: string, key: Bytes, r: int) {
    step.Save? && step.snapshot.cluster == cluster && step.snapshot.entry.key == key && step.snapshot.entry.modRevision == r
  }

  /** The retention was in force at the start or set by some step. */
  predicate WasInForce(start: nat, steps: seq<Step>, keep: nat) {
    keep == start || exists i :: 0 <= i < |steps| && steps[i] == Retain(keep)
  }

  /** The smallest nonzero retention in force is one of them and none is smaller; 0 means there was none. */
  lemma {:induction false} SmallestIs(start: nat, steps: seq<Step>)
    ensures var m := Smallest(start, steps);
      && (m > 0 ==> WasInForce(start, steps, m))
      && forall keep: nat :: keep > 0 && WasInForce(start, steps, keep) ==> 0 < m <= keep
    decreases |steps|
  {
    if steps != [] {
      var next := InForce(start, steps[0]);
      SmallestIs(next, steps[1..]);
      var m := Smallest(start, steps);
      if m > 0 { FirstInForce(start, steps, m); }
      forall keep: nat | keep > 0 && WasInForce(start, steps, keep) ensures 0 < m <= keep {
        EarlierInForce(start, steps, keep);
      }
    }
  }

  lemma FirstInForce(start: nat, steps: seq<Step>, m: nat)
    requires steps != [] && m > 0 && WasInForce(InForce(start, steps[0]), steps[1..], m)
    ensures WasInForce(start, steps, m)
  {
    if i :| 0 <= i < |steps[1..]| && steps[1..][i] == Retain(m) {
      assert steps[i + 1] == Retain(m);
    } else if m != start {
      assert steps[0] == Retain(m);
    }
  }

  lemma EarlierInForce(start: nat, steps: seq<Step>, keep: nat)
    requires steps != [] && keep > 0 && WasInForce(start, steps, keep)
    ensures var next := InForce(start, steps[0]);
      exists k: nat :: 0 < k <= keep && WasInForce(next, steps[1..], k)
  {
    var next := InForce(start, steps[0]);
    if i :| 0 < i < |steps| && steps[i] == Retain(keep) {
      assert steps[1..][i - 1] == Retain(keep);
      assert WasInForce(next, steps[1..], keep);
    } else {
      assert 0 < next <= keep && WasInForce(next, steps[1..], next);
    }
  }
}
