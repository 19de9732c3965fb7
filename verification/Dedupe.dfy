/**
 The dedupe caches: entries expire after a fixed time and the oldest are evicted beyond a maximum size.

 An insertion-ordered map is a sequence of entries with distinct keys. The clock is read several times
 within one operation; each reading is a parameter.
 */
module Dedupe {
  import opened Prelude

  datatype Entry = Entry(key: string, createdAt: int, expiresAt: int)

  /** `keyBefore` stands for the locale's comparison of keys. */
  datatype Config = Config(ttl: int, maxSize: int, keyBefore: (string, string) -> bool)

  /** `normalizePositiveInteger`: a finite number is cut to a whole one, and raised to one if it is less; None stands for
      what is not finite. */
  function AtLeastOne(value: Option<real>, fallback: int): (r: int)
    requires fallback >= 1
    ensures r >= 1
    ensures value.None? ==> r == fallback
    ensures value.Some? ==> if value.value < 1.0 then r == 1 else r as real <= value.value < r as real + 1.0
  {
    if value.None? then fallback
    else if value.value < 1.0 then 1
    else value.value.Floor
  }

  const DEFAULT_TTL_MS := 300000

  const DEFAULT_MAX_SIZE := 2000

  ghost predicate ValidConfig(c: Config) {
    && c.ttl >= 1 && c.maxSize >= 1
    && (forall a :: !c.keyBefore(a, a))
    && (forall x, y, z :: c.keyBefore(x, y) && c.keyBefore(y, z) ==> c.keyBefore(x, z))
    && (forall x, y :: x != y ==> c.keyBefore(x, y) || c.keyBefore(y, x))
  }

  /** The eviction order: by creation time, then by key. */
  predicate Older(c: Config, a: Entry, b: Entry) {
    a.createdAt < b.createdAt || (a.createdAt == b.createdAt && c.keyBefore(a.key, b.key))
  }

  predicate HasKey(es: seq<Entry>, key: string) {
    exists k :: 0 <= k < |es| && es[k].key == key
  }

  ghost predicate DistinctKeys(es: seq<Entry>) {
    forall i, j :: 0 <= i < j < |es| ==> es[i].key != es[j].key
  }

  // ------------------------------------------------------------------ pruning, as a function

  function Unexpired(es: seq<Entry>, now: int): (r: seq<Entry>)
    ensures |r| <= |es|
  {
    if es == [] then []
    else
      var init, last := es[..|es| - 1], es[|es| - 1];
      Unexpired(init, now) + (if last.expiresAt <= now then [] else [last])
  }

  /** The position of the entry that sorts first. */
  function OldestIndex(c: Config, es: seq<Entry>): (i: nat)
    requires es != []
    ensures i < |es|
  {
    if |es| == 1 then 0
    else
      var best := OldestIndex(c, es[..|es| - 1]);
      if Older(c, es[|es| - 1], es[best]) then |es| - 1 else best
  }

  function RemoveAt<T>(s: seq<T>, i: nat): (r: seq<T>)
    requires i < |s|
    ensures |r| == |s| - 1
  {
    s[..i] + s[i + 1..]
  }

  function Evict(c: Config, es: seq<Entry>): seq<Entry>
    requires c.maxSize >= 0
    decreases |es|
  {
    if |es| <= c.maxSize then es else Evict(c, RemoveAt(es, OldestIndex(c, es)))
  }

  function Repaired(c: Config, e: Entry): Entry {
    if e.expiresAt < e.createdAt then e.(expiresAt := e.createdAt + c.ttl) else e
  }

  function Repair(c: Config, es: seq<Entry>): (r: seq<Entry>)
    ensures |r| == |es| && forall k :: 0 <= k < |es| ==> r[k] == Repaired(c, es[k])
  {
    seq(|es|, k requires 0 <= k < |es| => Repaired(c, es[k]))
  }

  function Prune(c: Config, es: seq<Entry>, now: int): seq<Entry>
    requires c.maxSize >= 0
  {
    Repair(c, Evict(c, Unexpired(es, now)))
  }

  // ------------------------------------------------------------------ pruning and the cache, as code

  method FindOldest(c: Config, es: seq<Entry>) returns (oldest: nat)
    requires es != []
    ensures oldest == OldestIndex(c, es)
  {
    oldest := 0;
    assert es[..1][..1] == es[..1];
    for i := 1 to |es|
      invariant oldest == OldestIndex(c, es[..i])
    {
      assert es[..i + 1][..i] == es[..i];
      if Older(c, es[i], es[oldest]) {
        oldest := i;
      }
    }
    assert es[..|es|] == es;
  }

  /** `pruneEntries`: drop what has expired, evict the oldest beyond the maximum, repair inverted lifetimes. */
  method PruneEntries(c: Config, all: seq<Entry>, now: int) returns (entries: seq<Entry>)
    requires c.maxSize >= 1
    ensures entries == Prune(c, all, now)
  {
    entries := [];
    for i := 0 to |all|
      invariant entries == Unexpired(all[..i], now)
    {
      assert all[..i + 1][..i] == all[..i];
      if all[i].expiresAt > now {
        entries := entries + [all[i]];
      }
    }
    assert all[..|all|] == all;

    ghost var live := entries;
    while |entries| > c.maxSize
      invariant Evict(c, entries) == Evict(c, live)
      decreases |entries|
    {
      var oldest := FindOldest(c, entries);
      entries := RemoveAt(entries, oldest);
    }

    ghost var evicted := entries;
    for i := 0 to |entries|
      invariant |entries| == |evicted|
      invariant forall k :: 0 <= k < |entries| ==> entries[k] == if k < i then Repaired(c, evicted[k]) else evicted[k]
    {
      if entries[i].expiresAt < entries[i].createdAt {
        entries := entries[i := entries[i].(expiresAt := entries[i].createdAt + c.ttl)];
      }
    }
    assert entries == Repair(c, evicted);
  }

  class DedupeCache {
    const config: Config
    var entries: seq<Entry>

    constructor (ttlMs: Option<real>, maxSize: Option<real>, keyBefore: (string, string) -> bool)
      ensures config == Config(AtLeastOne(ttlMs, DEFAULT_TTL_MS), AtLeastOne(maxSize, DEFAULT_MAX_SIZE), keyBefore) && entries == []
    {
      config := Config(AtLeastOne(ttlMs, DEFAULT_TTL_MS), AtLeastOne(maxSize, DEFAULT_MAX_SIZE), keyBefore);
      entries := [];
    }

    /** `claim` on a trimmed key, with the three readings of the clock it makes. */
    method Claim(key: string, t1: int, t2: int, t3: int) returns (accepted: bool)
      requires config.maxSize >= 1
      modifies this`entries
      ensures (entries, accepted) == ClaimStep(config, old(entries), key, t1, t2, t3)
    {
      if key == "" { return false; }
      entries := PruneEntries(config, entries, t1);
      if HasKey(entries, key) { return false; }
      entries := entries + [Entry(key, t2, t2 + config.ttl)];
      entries := PruneEntries(config, entries, t3);
      return true;
    }

    method Has(key: string, now: int) returns (present: bool)
      requires config.maxSize >= 1
      modifies this`entries
      ensures key == "" ==> !present && entries == old(entries)
      ensures key != "" ==> entries == Prune(config, old(entries), now) && present == HasKey(entries, key)
    {
      if key == "" { return false; }
      entries := PruneEntries(config, entries, now);
      return HasKey(entries, key);
    }

    method Delete(key: string, now: int) returns (removed: bool)
      requires config.maxSize >= 1
      modifies this`entries
      ensures removed == HasKey(Prune(config, old(entries), now), key)
      ensures !removed ==> entries == Prune(config, old(entries), now)
      ensures removed ==> WithoutKey(Prune(config, old(entries), now), entries, key)
    {
      entries := PruneEntries(config, entries, now);
      for i := 0 to |entries|
        invariant entries == Prune(config, old(entries), now)
        invariant forall k :: 0 <= k < i ==> entries[k].key != key
      {
        if entries[i].key == key {
          entries := RemoveAt(entries, i);
          return true;
        }
      }
      return false;
    }

    method Clear()
      modifies this`entries
      ensures entries == []
    {
      entries := [];
    }

    method Size(now: int) returns (size: nat)
      requires config.maxSize >= 1
      modifies this`entries
      ensures entries == Prune(config, old(entries), now) && size == |entries|
    {
      entries := PruneEntries(config, entries, now);
      return |entries|;
    }

    method SnapshotKeys(now: int) returns (keys: seq<string>)
      requires config.maxSize >= 1
      modifies this`entries
      ensures entries == Prune(config, old(entries), now)
      ensures |keys| == |entries| && forall k :: 0 <= k < |keys| ==> keys[k] == entries[k].key
    {
      entries := PruneEntries(config, entries, now);
      var es := entries;
      return seq(|es|, k requires 0 <= k < |es| => es[k].key);
    }
  }

  /** `after` is `before` with one entry of the key taken out. */
  ghost predicate WithoutKey(before: seq<Entry>, after: seq<Entry>, key: string) {
    exists i :: 0 <= i < |before| && before[i].key == key && after == RemoveAt(before, i)
  }

  function ClaimStep(c: Config, es: seq<Entry>, key: string, t1: int, t2: int, t3: int): (seq<Entry>, bool)
    requires c.maxSize >= 0
  {
    if key == "" then (es, false)
    else
      var pruned := Prune(c, es, t1);
      if HasKey(pruned, key) then (pruned, false)
      else (Prune(c, pruned + [Entry(key, t2, t2 + c.ttl)], t3), true)
  }

  // ------------------------------------------------------------------ what pruning keeps

  lemma {:induction false} UnexpiredIsTheFilter(es: seq<Entry>, now: int)
    ensures forall e :: e in Unexpired(es, now) <==> e in es && e.expiresAt > now
    ensures DistinctKeys(es) ==> DistinctKeys(Unexpired(es, now))
  {
    if es != [] {
      var init, last := es[..|es| - 1], es[|es| - 1];
      assert es == init + [last];
      UnexpiredIsTheFilter(init, now);
      if DistinctKeys(es) {
        assert forall e :: e in Unexpired(init, now) ==> e.key != last.key;
      }
    }
  }

  lemma {:induction false} OldestIsMinimal(c: Config, es: seq<Entry>)
    requires ValidConfig(c) && es != []
    ensures forall k :: 0 <= k < |es| ==> !Older(c, es[k], es[OldestIndex(c, es)])
  {
    if |es| > 1 {
      var init, last := es[..|es| - 1], es[|es| - 1];
      OldestIsMinimal(c, init);
      var best := OldestIndex(c, init);
      forall k | 0 <= k < |es|
        ensures !Older(c, es[k], es[OldestIndex(c, es)])
      {
        if k < |init| {
          assert !Older(c, init[k], init[best]);
        }
      }
    }
  }

  lemma RemovedElements<T>(s: seq<T>, i: nat)
    requires i < |s|
    ensures forall x :: x in s <==> x in RemoveAt(s, i) || x == s[i]
    ensures forall k :: 0 <= k < |s| - 1 ==> RemoveAt(s, i)[k] == if k < i then s[k] else s[k + 1]
  {
    forall x | x in s
      ensures x in RemoveAt(s, i) || x == s[i]
    {
      var k :| 0 <= k < |s| && s[k] == x;
      assert k < i ==> RemoveAt(s, i)[k] == x;
      assert k > i ==> RemoveAt(s, i)[k - 1] == x;
    }
  }

  /** Eviction leaves exactly the `maxSize` greatest entries: all of them if there are no more, and otherwise
      no evicted entry is greater than a kept one. */
  lemma {:induction false} EvictKeepsTheGreatest(c: Config, es: seq<Entry>)
    requires ValidConfig(c) && DistinctKeys(es)
    ensures |Evict(c, es)| == if |es| <= c.maxSize then |es| else c.maxSize
    ensures DistinctKeys(Evict(c, es))
    ensures forall e :: e in Evict(c, es) ==> e in es
    ensures forall d, k :: d in es && d !in Evict(c, es) && k in Evict(c, es) ==> Older(c, d, k)
    decreases |es|
  {
    if |es| > c.maxSize {
      var i := OldestIndex(c, es);
      var fewer := RemoveAt(es, i);
      RemovedElements(es, i);
      OldestIsMinimal(c, es);
      EvictKeepsTheGreatest(c, fewer);
      forall d, k | d in es && d !in Evict(c, es) && k in Evict(c, es)
        ensures Older(c, d, k)
      {
        if d !in fewer {
          DistinctIsOlder(c, es, i, k);
        }
      }
    }
  }

  lemma DistinctIsOlder(c: Config, es: seq<Entry>, i: nat, e: Entry)
    requires ValidConfig(c) && DistinctKeys(es) && i < |es|
    requires forall k :: 0 <= k < |es| ==> !Older(c, es[k], es[i])
    requires e in RemoveAt(es, i)
    ensures Older(c, es[i], e)
  {
    RemovedElements(es, i);
    var k :| 0 <= k < |es| && es[k] == e && k != i;
    assert es[k].key != es[i].key;
  }

  /** Pruning leaves exactly the `maxSize` greatest of the unexpired entries. */
  lemma PruneKeepsTheGreatestUnexpired(c: Config, es: seq<Entry>, now: int)
    requires ValidConfig(c) && DistinctKeys(es)
    requires forall e :: e in es ==> e.expiresAt >= e.createdAt
    ensures var live, pruned := Unexpired(es, now), Prune(c, es, now);
            && |pruned| == (if |live| <= c.maxSize then |live| else c.maxSize)
            && DistinctKeys(pruned)
            && (forall e :: e in pruned ==> e in es && e.expiresAt > now)
            && forall d, k :: d in es && d.expiresAt > now && d !in pruned && k in pruned ==> Older(c, d, k)
  {
    UnexpiredIsTheFilter(es, now);
    var live := Unexpired(es, now);
    EvictKeepsTheGreatest(c, live);
    assert Repair(c, Evict(c, live)) == Evict(c, live);
  }

  /** With equal creation times a key can be forgotten by the very claim that accepted it: exactly when the
      cache is full and the eviction order puts every held entry after it. */
  lemma ClaimIsForgottenAtOnce(c: Config, es: seq<Entry>, claimed: Entry, now: int)
    requires ValidConfig(c) && DistinctKeys(es + [claimed]) && |es| <= c.maxSize
    requires forall e :: e in es + [claimed] ==> e.expiresAt >= e.createdAt && e.expiresAt > now
    ensures claimed !in Prune(c, es + [claimed], now) <==>
            |es| == c.maxSize && forall e :: e in es ==> Older(c, claimed, e)
  {
    var all := es + [claimed];
    assert all[|es|] == claimed;
    if |es| < c.maxSize {
      UnexpiredKeepsAll(all, now);
      assert Repair(c, all) == all;
    } else {
      OneTooMany(c, all, now);
      var i := OldestIndex(c, all);
      RemovedElements(all, i);
      if i == |es| {
        assert RemoveAt(all, i) == es;
        assert claimed !in es by {
          assert forall k :: 0 <= k < |es| ==> all[k].key != all[|es|].key;
        }
        YoungestOfAll(c, es, claimed);
      } else {
        SomeoneIsOlder(c, es, claimed);
        assert RemoveAt(all, i)[|es| - 1] == claimed;
      }
    }
  }

  /** A run of this: with room for one entry and all readings 0, a claim of "b" is accepted, and then the same claim
      of "a" is accepted twice, because the eviction order puts "a" before the held "b". */
  lemma AcceptedTwiceInARow(c: Config)
    requires ValidConfig(c) && c.maxSize == 1 && c.keyBefore("a", "b")
    ensures var first := ClaimStep(c, [], "b", 0, 0, 0);
            var second := ClaimStep(c, first.0, "a", 0, 0, 0);
            var third := ClaimStep(c, second.0, "a", 0, 0, 0);
            && first == ([Entry("b", 0, c.ttl)], true)
            && second == first
            && third == first
  {
    var a, b := Entry("a", 0, c.ttl), Entry("b", 0, c.ttl);
    assert "a"[0] != "b"[0];
    PruneOne(c, b);
    assert !HasKey([], "b") && Prune(c, [], 0) == [] && [] + [b] == [b];
    assert [b][0].key == "b" && !HasKey([b], "a");
    assert [b] + [a] == [b, a];
    assert forall e :: e in [b, a] ==> e == a || e == b;
    OneTooMany(c, [b, a], 0);
    assert [b, a][..1] == [b];
    assert RemoveAt([b, a], 1) == [b];
  }

  lemma PruneOne(c: Config, e: Entry)
    requires c.maxSize >= 1 && e.expiresAt > 0 && e.expiresAt >= e.createdAt
    ensures Prune(c, [e], 0) == [e]
  {
    UnexpiredKeepsAll([e], 0);
    assert Repair(c, [e]) == [e];
  }

  lemma OneTooMany(c: Config, all: seq<Entry>, now: int)
    requires c.maxSize >= 0 && |all| == c.maxSize + 1
    requires forall e :: e in all ==> e.expiresAt >= e.createdAt && e.expiresAt > now
    ensures Prune(c, all, now) == RemoveAt(all, OldestIndex(c, all))
  {
    UnexpiredKeepsAll(all, now);
    var i := OldestIndex(c, all);
    var fewer := RemoveAt(all, i);
    RemovedElements(all, i);
    assert Evict(c, fewer) == fewer;
    assert forall k :: 0 <= k < |fewer| ==> fewer[k] in fewer;
    assert Repair(c, fewer) == fewer;
  }

  lemma YoungestOfAll(c: Config, es: seq<Entry>, claimed: Entry)
    requires ValidConfig(c) && DistinctKeys(es + [claimed]) && es != [] && OldestIndex(c, es + [claimed]) == |es|
    ensures forall e :: e in es ==> Older(c, claimed, e)
  {
    assert (es + [claimed])[..|es|] == es;
    OldestIsMinimal(c, es);
    forall e | e in es
      ensures Older(c, claimed, e)
    {
      EqualOrYoungerIsOlder(c, es, OldestIndex(c, es), claimed, e);
    }
  }

  lemma SomeoneIsOlder(c: Config, es: seq<Entry>, claimed: Entry)
    requires ValidConfig(c) && es != [] && OldestIndex(c, es + [claimed]) != |es|
    ensures exists e :: e in es && !Older(c, claimed, e)
  {
    assert (es + [claimed])[..|es|] == es;
    assert es[OldestIndex(c, es)] in es;
  }

  lemma EqualOrYoungerIsOlder(c: Config, es: seq<Entry>, best: nat, claimed: Entry, e: Entry)
    requires ValidConfig(c) && best < |es| && e in es && DistinctKeys(es + [claimed])
    requires forall k :: 0 <= k < |es| ==> !Older(c, es[k], es[best])
    requires Older(c, claimed, es[best])
    ensures Older(c, claimed, e)
  {
    var k :| 0 <= k < |es| && es[k] == e;
    assert (es + [claimed])[k] == e && (es + [claimed])[|es|] == claimed && (es + [claimed])[best] == es[best];
    if k != best {
      assert e.key != es[best].key;
      assert Older(c, es[best], e);
    }
  }

  lemma {:induction false} UnexpiredKeepsAll(es: seq<Entry>, now: int)
    requires forall e :: e in es ==> e.expiresAt > now
    ensures Unexpired(es, now) == es
  {
    if es != [] {
      var init := es[..|es| - 1];
      assert es == init + [es[|es| - 1]];
      UnexpiredKeepsAll(init, now);
    }
  }

  // ------------------------------------------------------------------ what the cache answers

  /** An accepted claim. */
  datatype Accepted = Accepted(key: string, at: int)

  /** The operations between which the answers are compared, with the clock readings each makes. */
  datatype Op =
    | Claim(key: string, t1: int, t2: int, t3: int)
    | Query(key: string, now: int)
    | Inspect(now: int)
    | ClearAll

  /** The cache's entries, the claims accepted since the last clear, and the last clock reading. */
  datatype State = State(entries: seq<Entry>, history: seq<Accepted>, clock: int)

  function Step(c: Config, s: State, op: Op): (State, bool)
    requires c.maxSize >= 0
  {
    match op
    case Claim(key, t1, t2, t3) =>
      var r := ClaimStep(c, s.entries, key, t1, t2, t3);
      if key == "" then (s, false)
      else if r.1 then (State(r.0, s.history + [Accepted(key, t2)], t3), true)
      else (State(r.0, s.history, t1), false)
    case Query(key, now) =>
      if key == "" then (s, false)
      else
        var es := Prune(c, s.entries, now);
        (State(es, s.history, now), HasKey(es, key))
    case Inspect(now) => (State(Prune(c, s.entries, now), s.history, now), true)
    case ClearAll => (State([], [], s.clock), true)
  }

  /** The clock does not run backwards, and successive claims get strictly later creation times. */
  ghost predicate InTime(s: State, op: Op) {
    match op
    case Claim(key, t1, t2, t3) =>
      s.clock <= t1 <= t2 <= t3 && (s.history != [] ==> s.history[|s.history| - 1].at < t2)
    case Query(_, now) => s.clock <= now
    case Inspect(now) => s.clock <= now
    case ClearAll => true
  }

  /** The history's answer: the key is among the last `maxSize` accepted claims and has not expired. */
  ghost predicate RecentlyClaimed(c: Config, history: seq<Accepted>, key: string, now: int) {
    exists i :: |history| - c.maxSize <= i < |history| && 0 <= i && history[i].key == key && history[i].at + c.ttl > now
  }

  /** The entries that the accepted claims created. */
  function Created(c: Config, history: seq<Accepted>): (es: seq<Entry>)
    ensures |es| == |history|
    ensures forall i :: 0 <= i < |es| ==> es[i] == Entry(history[i].key, history[i].at, history[i].at + c.ttl)
  {
    seq(|history|, i requires 0 <= i < |history| => Entry(history[i].key, history[i].at, history[i].at + c.ttl))
  }

  /** Made at strictly increasing times, with one lifetime. */
  ghost predicate Increasing(c: Config, es: seq<Entry>) {
    && (forall i, j :: 0 <= i < j < |es| ==> es[i].createdAt < es[j].createdAt)
    && (forall i :: 0 <= i < |es| ==> es[i].expiresAt == es[i].createdAt + c.ttl)
  }

  /** The held entries are the created ones from position `low` on, at most `maxSize` of them, and whatever of
      the last `maxSize` is not held has expired. */
  ghost predicate HeldFrom(c: Config, all: seq<Entry>, held: seq<Entry>, low: nat, clock: int) {
    && low <= |all| && held == all[low..] && |held| <= c.maxSize
    && forall i :: 0 <= i < low && |all| - c.maxSize <= i ==> all[i].expiresAt <= clock
  }

  ghost predicate HoldsTheLatest(c: Config, s: State) {
    var all := Created(c, s.history);
    Increasing(c, all) && exists low :: HeldFrom(c, all, s.entries, low, s.clock)
  }

  lemma IncreasingSlice(c: Config, es: seq<Entry>, low: nat, high: nat)
    requires Increasing(c, es) && low <= high <= |es|
    ensures Increasing(c, es[low..high])
  {
  }

  /** Of entries made at increasing times with one lifetime, the unexpired ones are a suffix. */
  lemma UnexpiredIsASuffix(c: Config, es: seq<Entry>, now: int) returns (n: nat)
    requires Increasing(c, es)
    ensures n <= |es| && Unexpired(es, now) == es[n..]
    ensures forall i :: 0 <= i < n ==> es[i].expiresAt <= now
    ensures n < |es| ==> es[n].expiresAt > now
  {
    n := UnexpiredOfPrefix(c, es, |es|, now);
    assert es[..|es|] == es && es[n..|es|] == es[n..];
  }

  lemma {:induction false} UnexpiredOfPrefix(c: Config, es: seq<Entry>, k: nat, now: int) returns (n: nat)
    requires Increasing(c, es) && k <= |es|
    ensures n <= k && Unexpired(es[..k], now) == es[n..k]
    ensures forall i :: 0 <= i < n ==> es[i].expiresAt <= now
    ensures n < k ==> es[n].expiresAt > now
  {
    if k == 0 {
      return 0;
    }
    n := UnexpiredOfPrefix(c, es, k - 1, now);
    assert es[..k][..k - 1] == es[..k - 1];
    if es[k - 1].expiresAt > now {
      assert es[n..k] == es[n..k - 1] + [es[k - 1]];
    } else {
      NoneLeftBefore(c, es, n, k - 1, now);
      n := k;
    }
  }

  lemma NoneLeftBefore(c: Config, es: seq<Entry>, n: nat, k: nat, now: int)
    requires Increasing(c, es) && n <= k < |es| && es[k].expiresAt <= now
    requires n < k ==> es[n].expiresAt > now
    ensures n == k
  {
  }

  lemma {:induction false} OldestOfIncreasing(c: Config, es: seq<Entry>)
    requires Increasing(c, es) && es != []
    ensures OldestIndex(c, es) == 0
  {
    if |es| > 1 {
      OldestOfIncreasing(c, es[..|es| - 1]);
    }
  }

  lemma RepairIsIdentity(c: Config, es: seq<Entry>)
    requires c.ttl >= 0 && forall i :: 0 <= i < |es| ==> es[i].expiresAt == es[i].createdAt + c.ttl
    ensures Repair(c, es) == es
  {
  }

  /** Eviction from such entries, at most one too many, drops the first. */
  lemma EvictFirst(c: Config, es: seq<Entry>)
    requires c.maxSize >= 1 && Increasing(c, es) && |es| <= c.maxSize + 1
    ensures Evict(c, es) == if |es| <= c.maxSize then es else es[1..]
  {
    if |es| > c.maxSize {
      OldestOfIncreasing(c, es);
      assert RemoveAt(es, 0) == es[1..];
    }
  }

  /** Pruning such entries keeps the latest unexpired ones. */
  lemma PruneIncreasing(c: Config, es: seq<Entry>, now: int) returns (n: nat)
    requires c.maxSize >= 1 && c.ttl >= 1 && Increasing(c, es) && |es| <= c.maxSize + 1
    ensures n <= |es| && Prune(c, es, now) == es[n..] && |es| - n <= c.maxSize
    ensures forall i :: 0 <= i < n && |es| - c.maxSize <= i ==> es[i].expiresAt <= now
    ensures |es| <= c.maxSize && n < |es| ==> es[n].expiresAt > now
  {
    n := UnexpiredIsASuffix(c, es, now);
    var live := es[n..];
    IncreasingSlice(c, es, n, |es|);
    assert live == es[n..|es|];
    EvictFirst(c, live);
    if |live| > c.maxSize {
      assert n == 0 && live[1..] == es[1..];
      n := 1;
    }
    IncreasingSlice(c, es, n, |es|);
    assert es[n..] == es[n..|es|];
    RepairIsIdentity(c, es[n..]);
  }

  lemma PruneHeld(c: Config, all: seq<Entry>, held: seq<Entry>, low: nat, clock: int, now: int) returns (higher: nat)
    requires c.maxSize >= 1 && c.ttl >= 1 && Increasing(c, all)
    requires HeldFrom(c, all, held, low, clock) && clock <= now
    ensures HeldFrom(c, all, Prune(c, held, now), higher, now)
    ensures higher < |all| ==> all[higher].expiresAt > now
  {
    assert forall i :: 0 <= i < |held| ==> held[i] == all[low + i];
    var n := PruneIncreasing(c, held, now);
    higher := low + n;
    assert held[n..] == all[higher..];
    forall i | low <= i < higher
      ensures all[i].expiresAt <= now
    {
      assert held[i - low] == all[i];
    }
  }

  lemma HeldKeysAreRecent(c: Config, history: seq<Accepted>, held: seq<Entry>, low: nat, now: int, key: string)
    requires c.maxSize >= 1 && Increasing(c, Created(c, history))
    requires HeldFrom(c, Created(c, history), held, low, now)
    requires low < |history| ==> Created(c, history)[low].expiresAt > now
    ensures HasKey(held, key) <==> RecentlyClaimed(c, history, key, now)
  {
    var all := Created(c, history);
    if HasKey(held, key) {
      var k :| 0 <= k < |held| && held[k].key == key;
      assert held[k] == all[low + k];
      assert k > 0 ==> all[low].createdAt < all[low + k].createdAt;
      assert history[low + k].key == key && history[low + k].at + c.ttl > now;
    }
    if RecentlyClaimed(c, history, key, now) {
      var i :| |history| - c.maxSize <= i < |history| && 0 <= i && history[i].key == key && history[i].at + c.ttl > now;
      assert all[i].expiresAt > now;
      assert held[i - low] == all[i];
    }
  }

  lemma PruneKeepsTheLatest(c: Config, s: State, now: int, key: string)
    requires c.maxSize >= 1 && c.ttl >= 1 && HoldsTheLatest(c, s) && s.clock <= now
    ensures HoldsTheLatest(c, State(Prune(c, s.entries, now), s.history, now))
    ensures HasKey(Prune(c, s.entries, now), key) <==> RecentlyClaimed(c, s.history, key, now)
  {
    var all := Created(c, s.history);
    var low :| HeldFrom(c, all, s.entries, low, s.clock);
    var higher := PruneHeld(c, all, s.entries, low, s.clock, now);
    HeldKeysAreRecent(c, s.history, Prune(c, s.entries, now), higher, now, key);
  }

  /** Accepting a claim appends its entry and evicts at most the oldest one. */
  lemma AppendKeepsTheLatest(c: Config, s: State, key: string, at: int, now: int)
    requires c.maxSize >= 1 && c.ttl >= 1 && HoldsTheLatest(c, s) && s.clock <= now
    requires s.history != [] ==> s.history[|s.history| - 1].at < at
    ensures HoldsTheLatest(c, State(Prune(c, s.entries + [Entry(key, at, at + c.ttl)], now),
                                    s.history + [Accepted(key, at)], now))
  {
    var all, more := Created(c, s.history), Created(c, s.history + [Accepted(key, at)]);
    var added := Entry(key, at, at + c.ttl);
    assert more == all + [added];
    var low :| HeldFrom(c, all, s.entries, low, s.clock);
    AppendIncreasing(c, all, added);
    AppendHeld(c, all, s.entries, low, s.clock, added, now);
  }

  lemma AppendIncreasing(c: Config, es: seq<Entry>, e: Entry)
    requires Increasing(c, es) && e.expiresAt == e.createdAt + c.ttl
    requires es != [] ==> es[|es| - 1].createdAt < e.createdAt
    ensures Increasing(c, es + [e])
  {
    forall i | 0 <= i < |es|
      ensures es[i].createdAt < e.createdAt
    {
      assert i < |es| - 1 ==> es[i].createdAt < es[|es| - 1].createdAt;
    }
  }

  lemma AppendHeld(c: Config, all: seq<Entry>, held: seq<Entry>, low: nat, clock: int, added: Entry, now: int)
    requires c.maxSize >= 1 && c.ttl >= 1 && Increasing(c, all + [added])
    requires HeldFrom(c, all, held, low, clock) && clock <= now
    ensures exists higher :: HeldFrom(c, all + [added], Prune(c, held + [added], now), higher, now)
  {
    var more, longer := all + [added], held + [added];
    assert forall i :: 0 <= i < |longer| ==> longer[i] == more[low + i];
    var n := PruneIncreasing(c, longer, now);
    assert longer[n..] == more[low + n..];
    forall i | 0 <= i < low + n && |more| - c.maxSize <= i
      ensures more[i].expiresAt <= now
    {
      if i < low {
        assert more[i] == all[i];
      } else {
        assert longer[i - low] == more[i];
      }
    }
    assert HeldFrom(c, more, longer[n..], low + n, now);
  }

  lemma ClaimAnswersFromHistory(c: Config, s: State, key: string, t1: int, t2: int, t3: int)
    requires c.maxSize >= 1 && c.ttl >= 1 && HoldsTheLatest(c, s) && InTime(s, Claim(key, t1, t2, t3)) && key != ""
    ensures HoldsTheLatest(c, Step(c, s, Claim(key, t1, t2, t3)).0)
    ensures Step(c, s, Claim(key, t1, t2, t3)).1 <==> !RecentlyClaimed(c, s.history, key, t1)
  {
    PruneKeepsTheLatest(c, s, t1, key);
    var pruned := State(Prune(c, s.entries, t1), s.history, t1);
    ClaimUnfolds(c, s, key, t1, t2, t3);
    if !HasKey(pruned.entries, key) {
      AppendKeepsTheLatest(c, pruned, key, t2, t3);
    }
  }

  lemma ClaimUnfolds(c: Config, s: State, key: string, t1: int, t2: int, t3: int)
    requires c.maxSize >= 0 && key != ""
    ensures var pruned := Prune(c, s.entries, t1);
            Step(c, s, Claim(key, t1, t2, t3)) ==
            if HasKey(pruned, key) then (State(pruned, s.history, t1), false)
            else (State(Prune(c, pruned + [Entry(key, t2, t2 + c.ttl)], t3), s.history + [Accepted(key, t2)], t3), true)
  {
  }

  /** Every operation keeps the invariant, and answers as the history says: a claim is rejected, and a query
      affirmed, exactly when the key is among the last `maxSize` accepted claims and unexpired. */
  lemma StepAnswersFromHistory(c: Config, s: State, op: Op)
    requires c.maxSize >= 1 && c.ttl >= 1 && HoldsTheLatest(c, s) && InTime(s, op)
    ensures HoldsTheLatest(c, Step(c, s, op).0)
    ensures op.Claim? && op.key != "" ==> (Step(c, s, op).1 <==> !RecentlyClaimed(c, s.history, op.key, op.t1))
    ensures op.Query? && op.key != "" ==> (Step(c, s, op).1 <==> RecentlyClaimed(c, s.history, op.key, op.now))
  {
    match op
    case Claim(key, t1, t2, t3) =>
      if key != "" {
        ClaimAnswersFromHistory(c, s, key, t1, t2, t3);
      }
    case Query(key, now) => PruneKeepsTheLatest(c, s, now, key);
    case Inspect(now) => PruneKeepsTheLatest(c, s, now, "");
    case ClearAll =>
      assert HeldFrom(c, Created(c, []), [], 0, s.clock);
  }

  function After(c: Config, ops: seq<Op>): State
    requires c.maxSize >= 0
  {
    if ops == [] then State([], [], 0) else Step(c, After(c, ops[..|ops| - 1]), ops[|ops| - 1]).0
  }

  ghost predicate Timely(c: Config, ops: seq<Op>)
    requires c.maxSize >= 0
  {
    ops == [] || (Timely(c, ops[..|ops| - 1]) && InTime(After(c, ops[..|ops| - 1]), ops[|ops| - 1]))
  }

  lemma {:induction false} ReachableHoldsTheLatest(c: Config, ops: seq<Op>)
    requires c.maxSize >= 1 && c.ttl >= 1 && Timely(c, ops)
    ensures HoldsTheLatest(c, After(c, ops))
  {
    if ops == [] {
      assert HeldFrom(c, Created(c, []), [], 0, 0);
    } else {
      ReachableHoldsTheLatest(c, ops[..|ops| - 1]);
      StepAnswersFromHistory(c, After(c, ops[..|ops| - 1]), ops[|ops| - 1]);
    }
  }

  /** After any timely operations, a non-blank key is rejected if and only if it is among the last `maxSize`
      accepted claims and has not expired. */
  lemma ClaimsAreRejectedExactlyWhenRecent(c: Config, ops: seq<Op>, key: string, t1: int, t2: int, t3: int)
    requires c.maxSize >= 1 && c.ttl >= 1 && Timely(c, ops + [Claim(key, t1, t2, t3)]) && key != ""
    ensures Step(c, After(c, ops), Claim(key, t1, t2, t3)).1 <==> !RecentlyClaimed(c, After(c, ops).history, key, t1)
  {
    assert (ops + [Claim(key, t1, t2, t3)])[..|ops|] == ops;
    ReachableHoldsTheLatest(c, ops);
    StepAnswersFromHistory(c, After(c, ops), Claim(key, t1, t2, t3));
  }
}
