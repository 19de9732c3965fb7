/** The two migration engines: one sweep over the sorted chain, and repeated lookup up to a target version. */
module Migrations {
  import opened Prelude

  datatype Migration<!V> = Migration(fromVersion: int, toVersion: int, migrate: V -> V)

  /** A version and the value that has it. */
  datatype Versioned<V> = Versioned(version: int, value: V)

  // ------------------------------------------------------------------ lookup

  /** `find`: the first listed migration that starts at the version. */
  function FirstMatch<V>(ms: seq<Migration<V>>, version: int): Option<Migration<V>> {
    if ms == [] then None
    else
      var earlier, last := FirstMatch(ms[..|ms| - 1], version), ms[|ms| - 1];
      if earlier.Some? then earlier else if last.fromVersion == version then Some(last) else None
  }

  lemma {:induction false} FirstMatchIsTheFirst<V>(ms: seq<Migration<V>>, version: int)
    ensures match FirstMatch(ms, version)
            case None => forall k :: 0 <= k < |ms| ==> ms[k].fromVersion != version
            case Some(m) => exists k :: 0 <= k < |ms| && ms[k] == m && m.fromVersion == version
                              && forall j :: 0 <= j < k ==> ms[j].fromVersion != version
  {
    if ms != [] {
      var init := ms[..|ms| - 1];
      FirstMatchIsTheFirst(init, version);
      if FirstMatch(init, version).Some? {
        var k :| 0 <= k < |init| && init[k] == FirstMatch(init, version).value
                 && init[k].fromVersion == version && forall j :: 0 <= j < k ==> init[j].fromVersion != version;
        assert ms[k] == init[k] && forall j :: 0 <= j < k ==> ms[j] == init[j];
      } else {
        assert forall j :: 0 <= j < |init| ==> ms[j] == init[j];
      }
    }
  }

  lemma FirstMatchAppend<V>(ms: seq<Migration<V>>, m: Migration<V>, version: int)
    ensures FirstMatch(ms + [m], version) ==
            if FirstMatch(ms, version).Some? then FirstMatch(ms, version)
            else if m.fromVersion == version then Some(m) else None
  {
    assert (ms + [m])[..|ms|] == ms;
  }

  /** Follow lookups until none matches: where they end, or None if n of them do not get there. */
  function Follow<V>(ms: seq<Migration<V>>, at: Versioned<V>, n: nat): Option<Versioned<V>>
    decreases n
  {
    match FirstMatch(ms, at.version)
    case None => Some(at)
    case Some(m) => if n == 0 then None else Follow(ms, Versioned(m.toVersion, m.migrate(at.value)), n - 1)
  }

  /** Following lookups from a position ends, and ends there. */
  ghost predicate FollowEndsAt<V>(ms: seq<Migration<V>>, at: Versioned<V>, end: Versioned<V>) {
    exists n: nat :: Follow(ms, at, n) == Some(end)
  }

  /** On the way from a version every first match raises the version, except that the last one may lead down to a
      version from which no migration starts. */
  predicate Orderly<V>(ms: seq<Migration<V>>, version: int)
    decreases CountFrom(ms, version)
  {
    match FirstMatch(ms, version)
    case None => true
    case Some(m) =>
      if m.toVersion > version then
        FirstMatchIsTheFirst(ms, version);
        LookupMakesProgress(ms, version, m.toVersion);
        Orderly(ms, m.toVersion)
      else m.toVersion < version && FirstMatch(ms, m.toVersion).None?
  }

  /** How many migrations start at the version or later. */
  function CountFrom<V>(ms: seq<Migration<V>>, version: int): nat {
    if ms == [] then 0
    else CountFrom(ms[..|ms| - 1], version) + (if ms[|ms| - 1].fromVersion >= version then 1 else 0)
  }

  lemma {:induction false} LookupMakesProgress<V>(ms: seq<Migration<V>>, version: int, higher: int)
    requires version <= higher
    ensures CountFrom(ms, higher) <= CountFrom(ms, version)
    ensures version < higher && (exists k :: 0 <= k < |ms| && ms[k].fromVersion == version) ==>
              CountFrom(ms, higher) < CountFrom(ms, version)
  {
    if ms != [] {
      LookupMakesProgress(ms[..|ms| - 1], version, higher);
      if exists k :: 0 <= k < |ms| && ms[k].fromVersion == version {
        var k :| 0 <= k < |ms| && ms[k].fromVersion == version;
        assert k < |ms| - 1 ==> ms[..|ms| - 1][k].fromVersion == version;
      }
    }
  }

  // ------------------------------------------------------------------ sorting and sweeping

  function AtLeast<V>(ms: seq<Migration<V>>, version: int): seq<Migration<V>> {
    if ms == [] then []
    else AtLeast(ms[..|ms| - 1], version) + (if ms[|ms| - 1].fromVersion >= version then [ms[|ms| - 1]] else [])
  }

  function Below<V>(ms: seq<Migration<V>>, target: int): seq<Migration<V>> {
    if ms == [] then []
    else Below(ms[..|ms| - 1], target) + (if ms[|ms| - 1].fromVersion < target then [ms[|ms| - 1]] else [])
  }

  function InsertSorted<V>(s: seq<Migration<V>>, m: Migration<V>): seq<Migration<V>> {
    if s == [] || s[|s| - 1].fromVersion <= m.fromVersion then s + [m]
    else InsertSorted(s[..|s| - 1], m) + [s[|s| - 1]]
  }

  /** The stable sort by starting version. */
  function SortByFrom<V>(ms: seq<Migration<V>>): seq<Migration<V>> {
    if ms == [] then [] else InsertSorted(SortByFrom(ms[..|ms| - 1]), ms[|ms| - 1])
  }

  ghost predicate Sorted<V>(ms: seq<Migration<V>>) {
    forall i, j :: 0 <= i < j < |ms| ==> ms[i].fromVersion <= ms[j].fromVersion
  }

  /** One pass over the chain from position i on: apply whatever starts at the current version. */
  function Sweep<V>(chain: seq<Migration<V>>, i: nat, at: Versioned<V>): Versioned<V>
    requires i <= |chain|
    decreases |chain| - i
  {
    if i == |chain| then at
    else if chain[i].fromVersion != at.version then Sweep(chain, i + 1, at)
    else Sweep(chain, i + 1, Versioned(chain[i].toVersion, chain[i].migrate(at.value)))
  }

  function MemoryChain<V>(ms: seq<Migration<V>>, version: int): seq<Migration<V>> {
    SortByFrom(AtLeast(ms, version))
  }

  // ------------------------------------------------------------------ the engines, as code

  /** The memory records of one namespace, as stored. `read` and `stamp` stand for reading a value's version and
      writing a version into it. */
  datatype MemoryRecord<V> = MemoryRecord(key: string, value: V)

  function Migrated<V>(ms: seq<Migration<V>>, read: V -> int, stamp: (V, int) -> V, r: MemoryRecord<V>): MemoryRecord<V> {
    var version := read(r.value);
    var end := Sweep(MemoryChain(ms, version), 0, Versioned(version, r.value));
    if end.version != version then MemoryRecord(r.key, stamp(end.value, end.version)) else r
  }

  predicate IsMigrated<V>(ms: seq<Migration<V>>, read: V -> int, r: MemoryRecord<V>) {
    Sweep(MemoryChain(ms, read(r.value)), 0, Versioned(read(r.value), r.value)).version != read(r.value)
  }

  class MemoryStore<V> {
    var records: seq<MemoryRecord<V>>

    constructor (records: seq<MemoryRecord<V>>)
      ensures this.records == records
    {
      this.records := records;
    }
  }

  /** `migrate` of the memory store: each record whose version the sweep changes is rewritten, the others are left
      alone, and the rewritten ones are returned in order. */
  method MigrateMemory<V>(store: MemoryStore<V>, ms: seq<Migration<V>>, read: V -> int, stamp: (V, int) -> V)
    returns (migrated: seq<MemoryRecord<V>>)
    modifies store
    ensures |store.records| == |old(store.records)|
    ensures forall k :: 0 <= k < |store.records| ==> store.records[k] == Migrated(ms, read, stamp, old(store.records)[k])
    ensures migrated == Rewritten(ms, read, stamp, old(store.records))
  {
    var records := store.records;
    migrated := [];
    for n := 0 to |records|
      invariant |store.records| == |records|
      invariant forall k :: 0 <= k < |records| ==>
        store.records[k] == if k < n then Migrated(ms, read, stamp, records[k]) else records[k]
      invariant migrated == Rewritten(ms, read, stamp, records[..n])
    {
      var record := records[n];
      var version := read(record.value);
      var chain := MemoryChain(ms, version);
      var value, currentVersion := record.value, version;
      for i := 0 to |chain|
        invariant Sweep(chain, i, Versioned(currentVersion, value)) == Sweep(chain, 0, Versioned(version, record.value))
      {
        if chain[i].fromVersion != currentVersion { continue; }
        value := chain[i].migrate(value);
        currentVersion := chain[i].toVersion;
      }
      assert records[..n + 1][..n] == records[..n];
      if currentVersion != version {
        var written := MemoryRecord(record.key, stamp(value, currentVersion));
        store.records := store.records[n := written];
        migrated := migrated + [written];
      }
    }
    assert records[..|records|] == records;
  }

  function Rewritten<V>(
      ms: seq<Migration<V>>, read: V -> int, stamp: (V, int) -> V, records: seq<MemoryRecord<V>>): seq<MemoryRecord<V>>
  {
    if records == [] then []
    else
      var last := records[|records| - 1];
      Rewritten(ms, read, stamp, records[..|records| - 1])
      + (if IsMigrated(ms, read, last) then [Migrated(ms, read, stamp, last)] else [])
  }

  /** What repeated lookup up to a target does: the records it saves on the way, and the end or the version from
      which no migration leads on. */
  datatype Climb<V> = Climb(saved: seq<Versioned<V>>, result: Result<Versioned<V>, int>)

  /** The climb to a target, or None if n lookups do not finish it. */
  function ClimbTo<V>(ms: seq<Migration<V>>, target: int, at: Versioned<V>, n: nat): Option<Climb<V>>
    decreases n
  {
    if at.version >= target then Some(Climb([], Ok(at)))
    else
      match FirstMatch(ms, at.version)
      case None => Some(Climb([], Err(at.version)))
      case Some(m) =>
        if n == 0 then None
        else
          var next := Versioned(m.toVersion, m.migrate(at.value));
          match ClimbTo(ms, target, next, n - 1)
          case None => None
          case Some(rest) => Some(Climb([next] + rest.saved, rest.result))
  }

  /** The climb ends at all. */
  ghost predicate ClimbEnds<V>(ms: seq<Migration<V>>, target: int, at: Versioned<V>) {
    exists n: nat :: ClimbTo(ms, target, at, n).Some?
  }

  /** `migrateRecord`, on every input on which its loop ends: it stops at the first version at or above the target,
      or at a version without migration, after at most as many rounds as there are migrations. */
  method MigrateRecord<V>(record: Versioned<V>, target: int, ms: seq<Migration<V>>)
    returns (r: Result<Versioned<V>, int>, saved: seq<Versioned<V>>)
    requires ClimbEnds(ms, target, record)
    ensures ClimbTo(ms, target, record, |ms|) == Some(Climb(saved, r))
    ensures IsClimb(ms, target, record, Climb(saved, r))
  {
    ClimbEndsWithinTheList(ms, target, record);
    ClimbIsAWalk(ms, target, record, |ms|);
    var current := record;
    saved := [];
    ghost var all := ClimbTo(ms, target, record, |ms|).value;
    ghost var n: nat := |ms|;
    while current.version < target
      invariant ClimbTo(ms, target, current, n).Some?
      invariant ClimbTo(ms, target, current, n).value.result == all.result
      invariant saved + ClimbTo(ms, target, current, n).value.saved == all.saved
      decreases n
    {
      var migration := Find(ms, current.version);
      if migration.None? {
        assert saved + [] == saved;
        return Err(current.version), saved;
      }
      ClimbOneStep(ms, target, current, n, saved);
      current := Versioned(migration.value.toVersion, migration.value.migrate(current.value));
      saved := saved + [current];
      n := n - 1;
    }
    assert saved + [] == saved;
    return Ok(current), saved;
  }

  /** One lookup leads from a to b: the first match of a's version gives b its version and its value. */
  ghost predicate LeadsTo<V>(ms: seq<Migration<V>>, a: Versioned<V>, b: Versioned<V>) {
    var m := FirstMatch(ms, a.version);
    m.Some? && b.version == m.value.toVersion && b.value == m.value.migrate(a.value)
  }

  /** The saved records are the successive results of lookups from the start, each from below the target; the last one is
      returned if it has reached the target, and else no migration starts at its version. */
  ghost predicate IsClimb<V>(ms: seq<Migration<V>>, target: int, at: Versioned<V>, climb: Climb<V>) {
    var path := [at] + climb.saved;
    && (forall k :: 0 <= k < |path| - 1 ==> path[k].version < target && LeadsTo(ms, path[k], path[k + 1]))
    && var end := path[|path| - 1];
       if end.version >= target then climb.result == Ok(end)
       else climb.result == Err(end.version) && FirstMatch(ms, end.version).None?
  }

  lemma {:induction false} ClimbIsAWalk<V>(ms: seq<Migration<V>>, target: int, at: Versioned<V>, n: nat)
    requires ClimbTo(ms, target, at, n).Some?
    ensures IsClimb(ms, target, at, ClimbTo(ms, target, at, n).value)
    decreases n
  {
    if at.version < target && FirstMatch(ms, at.version).Some? {
      var m := FirstMatch(ms, at.version).value;
      var next := Versioned(m.toVersion, m.migrate(at.value));
      ClimbIsAWalk(ms, target, next, n - 1);
      OneStepMore(ms, target, at, next, ClimbTo(ms, target, next, n - 1).value);
    }
  }

  lemma OneStepMore<V>(ms: seq<Migration<V>>, target: int, at: Versioned<V>, next: Versioned<V>, rest: Climb<V>)
    requires at.version < target && LeadsTo(ms, at, next) && IsClimb(ms, target, next, rest)
    ensures IsClimb(ms, target, at, Climb([next] + rest.saved, rest.result))
  {
    var shorter, path := [next] + rest.saved, [at] + ([next] + rest.saved);
    assert path[|path| - 1] == shorter[|shorter| - 1];
    forall k | 0 <= k < |path| - 1
      ensures path[k].version < target && LeadsTo(ms, path[k], path[k + 1])
    {
      assert k > 0 ==> path[k] == shorter[k - 1] && path[k + 1] == shorter[k];
    }
  }

  lemma ClimbOneStep<V>(ms: seq<Migration<V>>, target: int, at: Versioned<V>, n: nat, saved: seq<Versioned<V>>)
    requires at.version < target && FirstMatch(ms, at.version).Some? && ClimbTo(ms, target, at, n).Some?
    ensures var m := FirstMatch(ms, at.version).value;
            var next := Versioned(m.toVersion, m.migrate(at.value));
            && n > 0 && ClimbTo(ms, target, next, n - 1).Some?
            && ClimbTo(ms, target, at, n).value.result == ClimbTo(ms, target, next, n - 1).value.result
            && saved + ClimbTo(ms, target, at, n).value.saved == (saved + [next]) + ClimbTo(ms, target, next, n - 1).value.saved
  {
    var m := FirstMatch(ms, at.version).value;
    var next := Versioned(m.toVersion, m.migrate(at.value));
    assert ClimbTo(ms, target, at, n).value.saved == [next] + ClimbTo(ms, target, next, n - 1).value.saved;
  }

  method Find<V>(ms: seq<Migration<V>>, version: int) returns (found: Option<Migration<V>>)
    ensures found == FirstMatch(ms, version)
  {
    FirstMatchIsTheFirst(ms, version);
    for k := 0 to |ms|
      invariant forall j :: 0 <= j < k ==> ms[j].fromVersion != version
    {
      if ms[k].fromVersion == version {
        return Some(ms[k]);
      }
    }
    return None;
  }

  // ------------------------------------------------------------------ filtering and sorting keep the first match

  lemma {:induction false} BelowMatches<V>(ms: seq<Migration<V>>, target: int, version: int)
    ensures FirstMatch(Below(ms, target), version) == if version < target then FirstMatch(ms, version) else None
  {
    if ms != [] {
      var init, last := ms[..|ms| - 1], ms[|ms| - 1];
      BelowMatches(init, target, version);
      assert init + [last] == ms;
      FirstMatchAppend(init, last, version);
      if last.fromVersion < target {
        assert Below(ms, target) == Below(init, target) + [last];
        FirstMatchAppend(Below(init, target), last, version);
      } else {
        assert Below(ms, target) == Below(init, target);
      }
    }
  }

  lemma {:induction false} AtLeastMatches<V>(ms: seq<Migration<V>>, low: int, version: int)
    requires low <= version
    ensures FirstMatch(AtLeast(ms, low), version) == FirstMatch(ms, version)
  {
    if ms != [] {
      var init, last := ms[..|ms| - 1], ms[|ms| - 1];
      AtLeastMatches(init, low, version);
      assert init + [last] == ms;
      FirstMatchAppend(init, last, version);
      if last.fromVersion >= low {
        assert AtLeast(ms, low) == AtLeast(init, low) + [last];
        FirstMatchAppend(AtLeast(init, low), last, version);
      } else {
        assert AtLeast(ms, low) == AtLeast(init, low);
      }
    }
  }

  lemma {:induction false} InsertKeepsMatches<V>(s: seq<Migration<V>>, m: Migration<V>, version: int)
    ensures FirstMatch(InsertSorted(s, m), version) ==
            if FirstMatch(s, version).Some? then FirstMatch(s, version)
            else if m.fromVersion == version then Some(m) else None
  {
    if s == [] || s[|s| - 1].fromVersion <= m.fromVersion {
      FirstMatchAppend(s, m, version);
    } else {
      var init, last := s[..|s| - 1], s[|s| - 1];
      InsertKeepsMatches(init, m, version);
      FirstMatchAppend(InsertSorted(init, m), last, version);
    }
  }

  lemma {:induction false} SortKeepsMatches<V>(ms: seq<Migration<V>>, version: int)
    ensures FirstMatch(SortByFrom(ms), version) == FirstMatch(ms, version)
  {
    if ms != [] {
      SortKeepsMatches(ms[..|ms| - 1], version);
      InsertKeepsMatches(SortByFrom(ms[..|ms| - 1]), ms[|ms| - 1], version);
    }
  }

  lemma {:induction false} InsertIsSorted<V>(s: seq<Migration<V>>, m: Migration<V>)
    requires Sorted(s)
    ensures Sorted(InsertSorted(s, m))
    ensures forall x :: x in InsertSorted(s, m) <==> x in s || x == m
  {
    if s != [] && s[|s| - 1].fromVersion > m.fromVersion {
      var init, last := s[..|s| - 1], s[|s| - 1];
      InsertIsSorted(init, m);
      assert s == init + [last];
      forall x | x in InsertSorted(init, m)
        ensures x.fromVersion <= last.fromVersion
      {
        if x in init {
          var k :| 0 <= k < |init| && init[k] == x;
          assert s[k] == x;
        }
      }
    }
  }

  lemma {:induction false} SortSorts<V>(ms: seq<Migration<V>>)
    ensures Sorted(SortByFrom(ms))
    ensures forall x :: x in SortByFrom(ms) <==> x in ms
  {
    if ms != [] {
      var init, last := ms[..|ms| - 1], ms[|ms| - 1];
      SortSorts(init);
      InsertIsSorted(SortByFrom(init), last);
      assert ms == init + [last];
    }
  }

  // ------------------------------------------------------------------ how long lookups go on

  /** Whether following lookups from a version ends within n steps. */
  predicate EndsWithin<V>(ms: seq<Migration<V>>, version: int, n: nat)
    decreases n
  {
    match FirstMatch(ms, version)
    case None => true
    case Some(m) => n > 0 && EndsWithin(ms, m.toVersion, n - 1)
  }

  lemma {:induction false} FollowEndsWithin<V>(ms: seq<Migration<V>>, at: Versioned<V>, n: nat)
    ensures Follow(ms, at, n).Some? <==> EndsWithin(ms, at.version, n)
    ensures Follow(ms, at, n).Some? ==> FirstMatch(ms, Follow(ms, at, n).value.version).None?
    decreases n
  {
    if n > 0 && FirstMatch(ms, at.version).Some? {
      var m := FirstMatch(ms, at.version).value;
      FollowEndsWithin(ms, Versioned(m.toVersion, m.migrate(at.value)), n - 1);
    }
  }

  /** More steps than are needed change nothing. */
  lemma {:induction false} EndsWithinMore<V>(ms: seq<Migration<V>>, version: int, n: nat, more: nat)
    requires EndsWithin(ms, version, n) && n <= more
    ensures EndsWithin(ms, version, more)
    decreases n
  {
    if FirstMatch(ms, version).Some? {
      EndsWithinMore(ms, FirstMatch(ms, version).value.toVersion, n - 1, more - 1);
    }
  }

  lemma {:induction false} FollowMore<V>(ms: seq<Migration<V>>, at: Versioned<V>, n: nat, more: nat)
    requires Follow(ms, at, n).Some? && n <= more
    ensures Follow(ms, at, more) == Follow(ms, at, n)
    decreases n
  {
    if FirstMatch(ms, at.version).Some? {
      var m := FirstMatch(ms, at.version).value;
      FollowMore(ms, Versioned(m.toVersion, m.migrate(at.value)), n - 1, more - 1);
    }
  }

  /** The versions at which migrations start. */
  function Starts<V>(ms: seq<Migration<V>>): (starts: set<int>)
    ensures |starts| <= |ms|
  {
    if ms == [] then {} else Starts(ms[..|ms| - 1]) + {ms[|ms| - 1].fromVersion}
  }

  lemma {:induction false} MatchedVersionsAreStarts<V>(ms: seq<Migration<V>>, version: int)
    ensures FirstMatch(ms, version).Some? <==> version in Starts(ms)
  {
    if ms != [] {
      MatchedVersionsAreStarts(ms[..|ms| - 1], version);
    }
  }

  /** A path that takes exactly n steps passes n different versions at which migrations start, since each of them is
      a different number of steps from the end. */
  lemma {:induction false} ExactPathVersions<V>(ms: seq<Migration<V>>, version: int, n: nat) returns (passed: set<int>)
    requires EndsWithin(ms, version, n) && (n > 0 ==> !EndsWithin(ms, version, n - 1))
    ensures |passed| == n && passed <= Starts(ms)
    ensures forall v :: v in passed ==> EndsWithin(ms, v, n)
    decreases n
  {
    passed := {};
    if n > 0 {
      var next := FirstMatch(ms, version).value.toVersion;
      var fewer := ExactPathVersions(ms, next, n - 1);
      MatchedVersionsAreStarts(ms, version);
      passed := fewer + {version};
      forall v | v in fewer
        ensures EndsWithin(ms, v, n)
      {
        EndsWithinMore(ms, v, n - 1, n);
      }
    }
  }

  lemma {:induction false} SubsetIsSmaller(a: set<int>, b: set<int>)
    requires a <= b
    ensures |a| <= |b|
  {
    assert b == a + (b - a);
  }

  /** Lookups that end at all end within as many steps as there are migrations. */
  lemma {:induction false} EndsWithinTheList<V>(ms: seq<Migration<V>>, version: int, n: nat)
    requires EndsWithin(ms, version, n)
    ensures EndsWithin(ms, version, |ms|)
    decreases n
  {
    if n <= |ms| {
      EndsWithinMore(ms, version, n, |ms|);
    } else if EndsWithin(ms, version, n - 1) {
      EndsWithinTheList(ms, version, n - 1);
    } else {
      var passed := ExactPathVersions(ms, version, n);
      SubsetIsSmaller(passed, Starts(ms));
      assert false;
    }
  }

  // ------------------------------------------------------------------ main results

  /** Climbing to a target is following the migrations that start below it, and seeing whether that reached it. */
  lemma {:induction false} ClimbIsFollow<V>(ms: seq<Migration<V>>, target: int, at: Versioned<V>, n: nat)
    ensures var follow, climb := Follow(Below(ms, target), at, n), ClimbTo(ms, target, at, n);
            && (climb.Some? <==> follow.Some?)
            && (climb.Some? ==> climb.value.result == Outcome(target, follow.value))
    decreases n
  {
    BelowMatches(ms, target, at.version);
    if n > 0 && at.version < target && FirstMatch(ms, at.version).Some? {
      var m := FirstMatch(ms, at.version).value;
      ClimbIsFollow(ms, target, Versioned(m.toVersion, m.migrate(at.value)), n - 1);
    }
  }

  /** What ending at a position means to the record engine. */
  function Outcome<V>(target: int, end: Versioned<V>): Result<Versioned<V>, int> {
    if end.version >= target then Ok(end) else Err(end.version)
  }

  /** The record engine's loop ends if and only if it ends within as many rounds as there are migrations: whoever
      lists the migrations can check this before the call. */
  lemma ClimbEndsWithinTheList<V>(ms: seq<Migration<V>>, target: int, at: Versioned<V>)
    ensures ClimbEnds(ms, target, at) <==> ClimbTo(ms, target, at, |ms|).Some?
  {
    var below := Below(ms, target);
    if ClimbEnds(ms, target, at) {
      var n: nat :| ClimbTo(ms, target, at, n).Some?;
      ClimbIsFollow(ms, target, at, n);
      FollowEndsWithin(below, at, n);
      EndsWithinTheList(below, at.version, n);
      BelowIsShorter(ms, target);
      EndsWithinMore(below, at.version, |below|, |ms|);
      FollowEndsWithin(below, at, |ms|);
      ClimbIsFollow(ms, target, at, |ms|);
    }
  }

  lemma {:induction false} BelowIsShorter<V>(ms: seq<Migration<V>>, target: int)
    ensures |Below(ms, target)| <= |ms|
  {
    if ms != [] {
      BelowIsShorter(ms[..|ms| - 1], target);
    }
  }

  /** The sorted rest of a chain that an engine sweeps from version `low`: first matches in it are those in ms. */
  ghost predicate SweepsLike<V>(ms: seq<Migration<V>>, chain: seq<Migration<V>>, i: nat, low: int, version: int) {
    && Sorted(chain) && i <= |chain|
    && (forall v :: low <= v ==> FirstMatch(chain, v) == FirstMatch(ms, v))
    && (forall k :: 0 <= k < i ==> chain[k].fromVersion != version)
  }

  /** Nothing in the rest of the chain starts at the current version. */
  lemma {:induction false} SweepPasses<V>(chain: seq<Migration<V>>, i: nat, at: Versioned<V>)
    requires i <= |chain| && forall k :: i <= k < |chain| ==> chain[k].fromVersion != at.version
    ensures Sweep(chain, i, at) == at
    decreases |chain| - i
  {
    if i < |chain| {
      SweepPasses(chain, i + 1, at);
    }
  }

  /** The sweep goes on to the first match of the current version, if there is one. */
  lemma {:induction false} SweepToMatch<V>(ms: seq<Migration<V>>, chain: seq<Migration<V>>, i: nat, low: int, at: Versioned<V>)
      returns (j: nat)
    requires SweepsLike(ms, chain, i, low, at.version) && low <= at.version && FirstMatch(ms, at.version).Some?
    ensures i <= j < |chain| && chain[j] == FirstMatch(ms, at.version).value && chain[j].fromVersion == at.version
    ensures var next := Versioned(chain[j].toVersion, chain[j].migrate(at.value));
            Sweep(chain, i, at) == Sweep(chain, j + 1, next)
    decreases |chain| - i
  {
    FirstMatchIsTheFirst(chain, at.version);
    if chain[i].fromVersion == at.version {
      j := i;
    } else {
      j := SweepToMatch(ms, chain, i + 1, low, at);
    }
  }

  /** An orderly way is swept to its end. */
  lemma {:induction false} OrderlySweepFollows<V>(
      ms: seq<Migration<V>>, chain: seq<Migration<V>>, i: nat, low: int, at: Versioned<V>) returns (n: nat)
    requires SweepsLike(ms, chain, i, low, at.version) && low <= at.version && Orderly(ms, at.version)
    ensures Follow(ms, at, n) == Some(Sweep(chain, i, at))
    decreases |chain| - i
  {
    if FirstMatch(ms, at.version).None? {
      FirstMatchIsTheFirst(chain, at.version);
      SweepPasses(chain, i, at);
      n := 0;
    } else {
      var j := SweepToMatch(ms, chain, i, low, at);
      var next := Versioned(chain[j].toVersion, chain[j].migrate(at.value));
      if next.version > at.version {
        n := OrderlySweepFollows(ms, chain, j + 1, low, next);
        n := n + 1;
      } else {
        SweepPasses(chain, j + 1, next);
        assert Follow(ms, next, 0) == Some(next);
        n := 1;
      }
    }
  }

  /** A way that is not orderly either never ends, or is swept only to a version from which lookup goes on. */
  lemma {:induction false} DisorderlySweepStops<V>(
      ms: seq<Migration<V>>, chain: seq<Migration<V>>, i: nat, low: int, at: Versioned<V>, n: nat)
    requires SweepsLike(ms, chain, i, low, at.version) && low <= at.version && !Orderly(ms, at.version)
    ensures Follow(ms, at, n).None? || FirstMatch(ms, Sweep(chain, i, at).version).Some?
    decreases |chain| - i
  {
    var j := SweepToMatch(ms, chain, i, low, at);
    var next := Versioned(chain[j].toVersion, chain[j].migrate(at.value));
    if next.version > at.version {
      if n > 0 {
        DisorderlySweepStops(ms, chain, j + 1, low, next, n - 1);
      }
    } else if next.version == at.version {
      FollowEndsWithin(ms, at, n);
      StuckLookupNeverArrives(ms, at.version, n);
    } else {
      SweepPasses(chain, j + 1, next);
    }
  }

  /** A first match that leads back to its own version keeps lookup there for ever. */
  lemma {:induction false} StuckLookupNeverArrives<V>(ms: seq<Migration<V>>, version: int, n: nat)
    requires FirstMatch(ms, version).Some? && FirstMatch(ms, version).value.toVersion == version
    ensures !EndsWithin(ms, version, n)
    decreases n
  {
    if n > 0 {
      StuckLookupNeverArrives(ms, version, n - 1);
    }
  }

  lemma ChainSweepsLike<V>(ms: seq<Migration<V>>, low: int)
    ensures SweepsLike(ms, MemoryChain(ms, low), 0, low, low)
  {
    var kept := AtLeast(ms, low);
    SortSorts(kept);
    forall v | low <= v
      ensures FirstMatch(MemoryChain(ms, low), v) == FirstMatch(ms, v)
    {
      SortKeepsMatches(kept, v);
      AtLeastMatches(ms, low, v);
    }
  }

  /** The single sweep over the sorted chain ends at the version and value at which iterated first-match lookup in the
      unsorted list ends, duplicates included, exactly when the way from that version is orderly. Otherwise
      lookup never ends or goes on from where the sweep stopped. */
  lemma SweepEqualsLookup<V>(ms: seq<Migration<V>>, at: Versioned<V>)
    ensures FollowEndsAt(ms, at, Sweep(MemoryChain(ms, at.version), 0, at)) <==> Orderly(ms, at.version)
  {
    var chain := MemoryChain(ms, at.version);
    var end := Sweep(chain, 0, at);
    ChainSweepsLike(ms, at.version);
    if Orderly(ms, at.version) {
      var n := OrderlySweepFollows(ms, chain, 0, at.version, at);
    } else if FollowEndsAt(ms, at, end) {
      var n: nat :| Follow(ms, at, n) == Some(end);
      FollowEndsWithin(ms, at, n);
      DisorderlySweepStops(ms, chain, 0, at.version, at, n);
      assert false;
    }
  }

  /** The record engine's climb ends as the memory sweep over the migrations that start below the target does: it
      succeeds exactly if the sweep reaches the target, with the same version and value, and otherwise stops at
      the same version. */
  ghost predicate EndAlike<V>(ms: seq<Migration<V>>, target: int, at: Versioned<V>) {
    var climb := ClimbTo(ms, target, at, |ms|);
    climb.Some? && climb.value.result == Outcome(target, Sweep(MemoryChain(Below(ms, target), at.version), 0, at))
  }

  /** The two engines end alike exactly on orderly ways. */
  lemma EnginesAgree<V>(ms: seq<Migration<V>>, target: int, at: Versioned<V>)
    ensures EndAlike(ms, target, at) <==> Orderly(Below(ms, target), at.version)
  {
    var below := Below(ms, target);
    var end := Sweep(MemoryChain(below, at.version), 0, at);
    ClimbIsFollow(ms, target, at, |ms|);
    if Orderly(below, at.version) {
      ChainSweepsLike(below, at.version);
      var n := OrderlySweepFollows(below, MemoryChain(below, at.version), 0, at.version, at);
      ClimbIsFollow(ms, target, at, n);
      ClimbEndsWithinTheList(ms, target, at);
      FollowMore(below, at, n, n + |ms|);
      FollowMore(below, at, |ms|, n + |ms|);
    } else {
      ChainSweepsLike(below, at.version);
      FollowEndsWithin(below, at, |ms|);
      DisorderlySweepStops(below, MemoryChain(below, at.version), 0, at.version, at, |ms|);
      BelowMatches(ms, target, end.version);
    }
  }

  /** A first match that lookup towards a target may take: it raises the version, or leads strictly down to a version
      from which no migration starts. */
  predicate Harmless<V>(ms: seq<Migration<V>>, version: int) {
    var m := FirstMatch(ms, version);
    m.None? || m.value.toVersion > version || (m.value.toVersion < version && FirstMatch(ms, m.value.toVersion).None?)
  }

  /** From every starting version the two engines end alike, exactly when every first match below the target is
      harmless. */
  lemma EnginesAgreeEverywhere<V>(ms: seq<Migration<V>>, target: int, value: V)
    ensures (forall version :: EndAlike(ms, target, Versioned(version, value)))
            <==> forall version :: version < target ==> Harmless(ms, version)
  {
    if forall version :: version < target ==> Harmless(ms, version) {
      forall version
        ensures EndAlike(ms, target, Versioned(version, value))
      {
        HarmlessIsOrderly(ms, target, version);
        EnginesAgree(ms, target, Versioned(version, value));
      }
    }
    if forall version :: EndAlike(ms, target, Versioned(version, value)) {
      forall version | version < target
        ensures Harmless(ms, version)
      {
        assert EndAlike(ms, target, Versioned(version, value));
        EnginesAgree(ms, target, Versioned(version, value));
        OrderlyIsHarmless(ms, target, version);
      }
    }
  }

  lemma {:induction false} HarmlessIsOrderly<V>(ms: seq<Migration<V>>, target: int, version: int)
    requires forall v :: v < target ==> Harmless(ms, v)
    ensures Orderly(Below(ms, target), version)
    decreases CountFrom(Below(ms, target), version)
  {
    BelowMatches(ms, target, version);
    if version < target && FirstMatch(ms, version).Some? {
      var to := FirstMatch(ms, version).value.toVersion;
      assert Harmless(ms, version);
      if to > version {
        FirstMatchIsTheFirst(Below(ms, target), version);
        LookupMakesProgress(Below(ms, target), version, to);
        HarmlessIsOrderly(ms, target, to);
      } else {
        BelowMatches(ms, target, to);
      }
    }
  }

  lemma OrderlyIsHarmless<V>(ms: seq<Migration<V>>, target: int, version: int)
    requires version < target && Orderly(Below(ms, target), version)
    ensures Harmless(ms, version)
  {
    BelowMatches(ms, target, version);
    if FirstMatch(ms, version).Some? {
      BelowMatches(ms, target, FirstMatch(ms, version).value.toVersion);
    }
  }

  /** A path of lookups. */
  ghost predicate IsPath<V>(ms: seq<Migration<V>>, path: seq<Versioned<V>>) {
    path != [] && forall k :: 0 <= k < |path| - 1 ==> LeadsTo(ms, path[k], path[k + 1])
  }

  /** Following lookups goes along such a path, to a version from which no migration starts. */
  lemma {:induction false} FollowIsAPath<V>(ms: seq<Migration<V>>, at: Versioned<V>, n: nat) returns (path: seq<Versioned<V>>)
    requires Follow(ms, at, n).Some?
    ensures IsPath(ms, path) && path[0] == at && path[|path| - 1] == Follow(ms, at, n).value
    ensures FirstMatch(ms, path[|path| - 1].version).None?
    decreases n
  {
    match FirstMatch(ms, at.version) {
      case None => path := [at];
      case Some(m) =>
        var next := Versioned(m.toVersion, m.migrate(at.value));
        var rest := FollowIsAPath(ms, next, n - 1);
        path := [at] + rest;
        forall k | 0 <= k < |path| - 1
          ensures LeadsTo(ms, path[k], path[k + 1])
        {
          assert k > 0 ==> path[k] == rest[k - 1];
          assert path[k + 1] == rest[k];
        }
    }
  }

  /** Reading a stamped value gives the stamped version. */
  ghost predicate Lawful<V(!new)>(read: V -> int, stamp: (V, int) -> V) {
    forall v, n :: read(stamp(v, n)) == n
  }

  /** What migrating a memory record from an orderly version does: following lookups from what it reads as ends at `end`; a
      record whose version that changes becomes the end's value stamped with the end's version, and any other stays.
      Either way it then reads as that version, and a second migration leaves it alone. */
  lemma MigratedRecord<V(!new)>(ms: seq<Migration<V>>, read: V -> int, stamp: (V, int) -> V, r: MemoryRecord<V>)
    returns (end: Versioned<V>)
    requires Lawful(read, stamp) && Orderly(ms, read(r.value))
    ensures FollowEndsAt(ms, Versioned(read(r.value), r.value), end)
    ensures Migrated(ms, read, stamp, r) ==
            if end.version != read(r.value) then MemoryRecord(r.key, stamp(end.value, end.version)) else r
    ensures IsMigrated(ms, read, r) <==> end.version != read(r.value)
    ensures read(Migrated(ms, read, stamp, r).value) == end.version
    ensures !IsMigrated(ms, read, Migrated(ms, read, stamp, r))
  {
    var at := Versioned(read(r.value), r.value);
    SweepEqualsLookup(ms, at);
    end := Sweep(MemoryChain(ms, at.version), 0, at);
    var n: nat :| Follow(ms, at, n) == Some(end);
    FollowEndsWithin(ms, at, n);
    NothingToSweep(ms, Versioned(end.version, Migrated(ms, read, stamp, r).value));
  }

  lemma NothingToSweep<V>(ms: seq<Migration<V>>, at: Versioned<V>)
    requires FirstMatch(ms, at.version).None?
    ensures Sweep(MemoryChain(ms, at.version), 0, at) == at
  {
    ChainSweepsLike(ms, at.version);
    FirstMatchIsTheFirst(MemoryChain(ms, at.version), at.version);
    SweepPasses(MemoryChain(ms, at.version), 0, at);
  }

  /** `out` lists the images at the positions `from`, which are all those that changed, in order. */
  ghost predicate Selects<R>(changed: seq<bool>, images: seq<R>, from: seq<nat>, out: seq<R>) {
    && |changed| == |images| && |from| == |out|
    && (forall k :: 0 <= k < |from| ==> from[k] < |changed| && changed[from[k]] && out[k] == images[from[k]])
    && (forall j, k :: 0 <= j < k < |from| ==> from[j] < from[k])
    && forall i :: 0 <= i < |changed| && changed[i] ==> i in from
  }

  lemma SelectsMore<R>(changed: seq<bool>, images: seq<R>, from: seq<nat>, out: seq<R>, c: bool, image: R)
    requires Selects(changed, images, from, out)
    ensures Selects(changed + [c], images + [image], if c then from + [|changed|] else from, if c then out + [image] else out)
  {
    if c {
      assert (from + [|changed|])[|from|] == |changed|;
    }
    forall i | 0 <= i < |changed| + 1 && (changed + [c])[i]
      ensures i in (if c then from + [|changed|] else from)
    {
      assert i < |changed| ==> changed[i] && i in from;
    }
  }

  function ChangedFlags<V>(ms: seq<Migration<V>>, read: V -> int, records: seq<MemoryRecord<V>>): seq<bool> {
    if records == [] then []
    else ChangedFlags(ms, read, records[..|records| - 1]) + [IsMigrated(ms, read, records[|records| - 1])]
  }

  function Images<V>(
      ms: seq<Migration<V>>, read: V -> int, stamp: (V, int) -> V, records: seq<MemoryRecord<V>>): seq<MemoryRecord<V>>
  {
    if records == [] then []
    else Images(ms, read, stamp, records[..|records| - 1]) + [Migrated(ms, read, stamp, records[|records| - 1])]
  }

  /** The returned records are the rewritten ones, in order: each comes from a record whose version changed, later ones
      from later records, and none is left out. */
  lemma {:induction false} RewrittenInOrder<V>(
      ms: seq<Migration<V>>, read: V -> int, stamp: (V, int) -> V, records: seq<MemoryRecord<V>>) returns (from: seq<nat>)
    ensures Selects(ChangedFlags(ms, read, records), Images(ms, read, stamp, records), from, Rewritten(ms, read, stamp, records))
  {
    from := [];
    if records != [] {
      var init, last := records[..|records| - 1], records[|records| - 1];
      from := RewrittenInOrder(ms, read, stamp, init);
      var changed, image := IsMigrated(ms, read, last), Migrated(ms, read, stamp, last);
      SelectsMore(ChangedFlags(ms, read, init), Images(ms, read, stamp, init), from, Rewritten(ms, read, stamp, init), changed, image);
      assert Rewritten(ms, read, stamp, init) + [] == Rewritten(ms, read, stamp, init);
      if changed {
        from := from + [|ChangedFlags(ms, read, init)|];
      }
    }
  }

  /** If all records are at orderly versions, migrating what a migration has left rewrites nothing. */
  lemma {:induction false} SecondMigrationRewritesNothing<V(!new)>(
      ms: seq<Migration<V>>, read: V -> int, stamp: (V, int) -> V, records: seq<MemoryRecord<V>>, migrated: seq<MemoryRecord<V>>)
    requires Lawful(read, stamp) && |migrated| == |records|
    requires forall k :: 0 <= k < |records| ==> Orderly(ms, read(records[k].value))
    requires forall k :: 0 <= k < |records| ==> migrated[k] == Migrated(ms, read, stamp, records[k])
    ensures Rewritten(ms, read, stamp, migrated) == []
  {
    if records != [] {
      var n := |records| - 1;
      SecondMigrationRewritesNothing(ms, read, stamp, records[..n], migrated[..n]);
      var end := MigratedRecord(ms, read, stamp, records[n]);
    }
  }

  /** In particular they always agree if every migration leads to a higher version. */
  lemma IncreasingMigrationsAgree<V>(ms: seq<Migration<V>>, target: int, at: Versioned<V>)
    requires forall k :: 0 <= k < |ms| ==> ms[k].toVersion > ms[k].fromVersion
    ensures EndAlike(ms, target, at)
    ensures FollowEndsAt(ms, at, Sweep(MemoryChain(ms, at.version), 0, at))
  {
    forall version
      ensures Harmless(ms, version)
    {
      FirstMatchIsTheFirst(ms, version);
    }
    HarmlessIsOrderly(ms, target, at.version);
    EnginesAgree(ms, target, at);
    IncreasingIsOrderly(ms, at.version);
    SweepEqualsLookup(ms, at);
  }

  lemma {:induction false} IncreasingIsOrderly<V>(ms: seq<Migration<V>>, version: int)
    requires forall k :: 0 <= k < |ms| ==> ms[k].toVersion > ms[k].fromVersion
    ensures Orderly(ms, version)
    decreases CountFrom(ms, version)
  {
    FirstMatchIsTheFirst(ms, version);
    if FirstMatch(ms, version).Some? {
      LookupMakesProgress(ms, version, FirstMatch(ms, version).value.toVersion);
      IncreasingIsOrderly(ms, FirstMatch(ms, version).value.toVersion);
    }
  }

  /** A downward migration to a version from which another one starts: on the way from 2 to the target 3 the sweep
      stops at 1, having already passed what lookup uses next. */
  lemma DownwardMigrationSeparatesTheEngines<V>(f: V -> V, x: V)
    ensures var ms := [Migration(1, 3, f), Migration(2, 1, f)];
            && Sweep(MemoryChain(Below(ms, 3), 2), 0, Versioned(2, x)) == Versioned(1, f(x))
            && ClimbTo(ms, 3, Versioned(2, x), 2) == Some(Climb([Versioned(1, f(x)), Versioned(3, f(f(x)))], Ok(Versioned(3, f(f(x))))))
            && !EndAlike(ms, 3, Versioned(2, x))
  {
    var up, down := Migration(1, 3, f), Migration(2, 1, f);
    var ms := [up, down];
    assert ms[..1] == [up] && [up][..0] == [] && [down][..0] == [];
    assert Below([up], 3) == [up] && Below(ms, 3) == [up] + [down] == ms;
    assert AtLeast([up], 2) == [] && AtLeast(ms, 2) == [] + [down] == [down];
    assert SortByFrom([down]) == InsertSorted([], down) == [down];
    assert Sweep([down], 1, Versioned(1, f(x))) == Versioned(1, f(x));
    assert FirstMatch([up], 2) == None && FirstMatch([up], 1) == Some(up);
    assert FirstMatch(ms, 2) == Some(down) && FirstMatch(ms, 1) == Some(up);
    var first, second := Versioned(1, f(x)), Versioned(3, f(f(x)));
    assert ClimbTo(ms, 3, second, 0) == Some(Climb([], Ok(second)));
    assert ClimbTo(ms, 3, first, 1) == Some(Climb([second] + [], Ok(second)));
    assert ClimbTo(ms, 3, Versioned(2, x), 2) == Some(Climb([first] + ([second] + []), Ok(second)));
    assert [first] + ([second] + []) == [first, second];
    assert !Orderly(ms, 2);
    EnginesAgree(ms, 3, Versioned(2, x));
  }
}
