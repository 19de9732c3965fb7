/** The dedupe cache that saves its entries to a file, and what survives a restart of the process. */
module PersistentDedupeModel {
  import opened Prelude
  import opened Dedupe

  /** `file` is the last saved list of entries, if there is one. */
  datatype FileState = FileState(entries: seq<Entry>, loaded: bool, file: Option<seq<Entry>>)

  /** Operations on a trimmed key, with every reading of the clock they make, in order. */
  datatype FileOp =
    | ClaimKey(key: string, t1: int, t2: int, t3: int, t4: int, t5: int)
    | HasKeyNow(key: string, t1: int, t2: int)
    | Keys(t1: int, t2: int)
    | Clear(t1: int, t2: int)

  datatype Answer = Flag(value: bool) | KeyList(keys: seq<string>) | Done

  function NonBlank(es: seq<Entry>): seq<Entry> {
    if es == [] then []
    else NonBlank(es[..|es| - 1]) + (if es[|es| - 1].key == "" then [] else [es[|es| - 1]])
  }

  /** `#load`: the first operation reads the file and prunes what it holds. */
  function Load(c: Config, s: FileState, now: int): FileState
    requires c.maxSize >= 1
  {
    if s.loaded then s
    else FileState(if s.file.Some? then Prune(c, NonBlank(s.file.value), now) else [], true, s.file)
  }

  /** `#save` prunes once more and writes all entries. */
  function Save(c: Config, es: seq<Entry>, now: int): FileState
    requires c.maxSize >= 1
  {
    FileState(Prune(c, es, now), true, Some(Prune(c, es, now)))
  }

  function KeysOf(es: seq<Entry>): seq<string> {
    seq(|es|, k requires 0 <= k < |es| => es[k].key)
  }

  /** What an operation sees once it has loaded and pruned. */
  function View(c: Config, s: FileState, t1: int, t2: int): FileState
    requires c.maxSize >= 1
  {
    var loaded := Load(c, s, t1);
    loaded.(entries := Prune(c, loaded.entries, t2))
  }

  /** The rest of a claim. */
  function ClaimOn(c: Config, s: FileState, key: string, t3: int, t4: int, t5: int): (FileState, Answer)
    requires c.maxSize >= 1
  {
    if HasKey(s.entries, key) then (s, Flag(false))
    else (Save(c, Prune(c, s.entries + [Entry(key, t3, t3 + c.ttl)], t4), t5), Flag(true))
  }

  function Perform(c: Config, s: FileState, op: FileOp): (FileState, Answer)
    requires c.maxSize >= 1
  {
    match op
    case ClaimKey(key, t1, t2, t3, t4, t5) =>
      if key == "" then (s, Flag(false)) else ClaimOn(c, View(c, s, t1, t2), key, t3, t4, t5)
    case HasKeyNow(key, t1, t2) =>
      var seen := View(c, s, t1, t2);
      (seen, Flag(HasKey(seen.entries, key)))
    case Keys(t1, t2) =>
      var seen := View(c, s, t1, t2);
      (seen, KeyList(KeysOf(seen.entries)))
    case Clear(t1, t2) => (Save(c, [], t2), Done)
  }

  class PersistentDedupe {
    const config: Config
    var entries: seq<Entry>
    var loaded: bool
    var file: Option<seq<Entry>>

    ghost function Current(): FileState
      reads this
    {
      FileState(entries, loaded, file)
    }

    /** A fresh process finds the file as the last one left it. */
    constructor (config: Config, file: Option<seq<Entry>>)
      ensures this.config == config && Current() == FileState([], false, file)
    {
      this.config := config;
      entries, loaded, this.file := [], false, file;
    }

    method LoadFile(now: int)
      requires config.maxSize >= 1
      modifies this`entries, this`loaded
      ensures Current() == Load(config, old(Current()), now)
    {
      if loaded { return; }
      loaded := true;
      entries := [];
      if file.Some? {
        entries := PruneEntries(config, NonBlank(file.value), now);
      }
    }

    method SaveFile(now: int)
      requires config.maxSize >= 1 && loaded
      modifies this`entries, this`file
      ensures Current() == Save(config, old(entries), now)
    {
      entries := PruneEntries(config, entries, now);
      file := Some(entries);
    }

    method LoadAndPrune(t1: int, t2: int)
      requires config.maxSize >= 1
      modifies this`entries, this`loaded
      ensures Current() == View(config, old(Current()), t1, t2) && loaded
    {
      LoadFile(t1);
      entries := PruneEntries(config, entries, t2);
    }

    method Insert(key: string, t3: int, t4: int, t5: int)
      requires config.maxSize >= 1 && loaded
      modifies this`entries, this`file
      ensures Current() == Save(config, Prune(config, old(entries) + [Entry(key, t3, t3 + config.ttl)], t4), t5)
    {
      entries := entries + [Entry(key, t3, t3 + config.ttl)];
      entries := PruneEntries(config, entries, t4);
      SaveFile(t5);
    }

    method Claim(key: string, t1: int, t2: int, t3: int, t4: int, t5: int) returns (accepted: bool)
      requires config.maxSize >= 1
      modifies this
      ensures (Current(), Flag(accepted)) == Perform(config, old(Current()), ClaimKey(key, t1, t2, t3, t4, t5))
    {
      if key == "" { return false; }
      LoadAndPrune(t1, t2);
      if HasKey(entries, key) { return false; }
      Insert(key, t3, t4, t5);
      return true;
    }

    method Has(key: string, t1: int, t2: int) returns (present: bool)
      requires config.maxSize >= 1
      modifies this
      ensures (Current(), Flag(present)) == Perform(config, old(Current()), HasKeyNow(key, t1, t2))
    {
      LoadAndPrune(t1, t2);
      return HasKey(entries, key);
    }

    method ClearFile(t1: int, t2: int)
      requires config.maxSize >= 1
      modifies this
      ensures Current() == Perform(config, old(Current()), Clear(t1, t2)).0
    {
      LoadFile(t1);
      entries := [];
      SaveFile(t2);
    }

    method SnapshotKeys(t1: int, t2: int) returns (keys: seq<string>)
      requires config.maxSize >= 1
      modifies this
      ensures (Current(), KeyList(keys)) == Perform(config, old(Current()), Keys(t1, t2))
    {
      LoadAndPrune(t1, t2);
      return KeysOf(entries);
    }
  }

  // ------------------------------------------------------------------ restarts

  function Restarted(s: FileState): FileState {
    FileState([], false, s.file)
  }

  function OnDisk(s: FileState): seq<Entry> {
    if s.file.Some? then s.file.value else []
  }

  /** Entries as this program makes them, no more than fit. */
  ghost predicate WellMade(c: Config, es: seq<Entry>) {
    && |es| <= c.maxSize
    && forall k :: 0 <= k < |es| ==> es[k].key != "" && es[k].expiresAt == es[k].createdAt + c.ttl
  }

  /** From now on, memory and file agree on what is unexpired. */
  ghost predicate MemoryMatchesFile(c: Config, s: FileState, clock: int) {
    && WellMade(c, s.entries) && WellMade(c, OnDisk(s))
    && (s.loaded ==> forall t :: clock <= t ==> Unexpired(s.entries, t) == Unexpired(OnDisk(s), t))
  }

  lemma {:induction false} NonBlankKeepsWellMade(c: Config, es: seq<Entry>)
    requires forall k :: 0 <= k < |es| ==> es[k].key != ""
    ensures NonBlank(es) == es
  {
    if es != [] {
      NonBlankKeepsWellMade(c, es[..|es| - 1]);
    }
  }

  /** Dropping what has expired by t and then by a later u is dropping what has expired by u. */
  lemma {:induction false} UnexpiredAgain(es: seq<Entry>, t: int, u: int)
    requires t <= u
    ensures Unexpired(Unexpired(es, t), u) == Unexpired(es, u)
  {
    if es != [] {
      var init, last := es[..|es| - 1], es[|es| - 1];
      UnexpiredAgain(init, t, u);
      if last.expiresAt > t {
        UnexpiredAppend(Unexpired(init, t), last, u);
      } else {
        assert Unexpired(init, t) + [] == Unexpired(init, t) && Unexpired(init, u) + [] == Unexpired(init, u);
      }
    }
  }

  lemma UnexpiredAppend(es: seq<Entry>, e: Entry, now: int)
    ensures Unexpired(es + [e], now) == Unexpired(es, now) + (if e.expiresAt <= now then [] else [e])
  {
    assert (es + [e])[..|es|] == es;
  }

  lemma {:induction false} UnexpiredIsWellMade(c: Config, es: seq<Entry>, now: int)
    requires WellMade(c, es)
    ensures WellMade(c, Unexpired(es, now))
  {
    if es != [] {
      UnexpiredIsWellMade(c, es[..|es| - 1], now);
    }
  }

  /** For well-made entries pruning is just expiry. */
  lemma PruneIsExpiry(c: Config, es: seq<Entry>, now: int)
    requires c.maxSize >= 1 && c.ttl >= 1 && WellMade(c, es)
    ensures Prune(c, es, now) == Unexpired(es, now)
  {
    UnexpiredIsWellMade(c, es, now);
    RepairIsIdentity(c, Unexpired(es, now));
  }

  /** What an operation sees after loading and pruning depends on the file alone. */
  lemma LoadedViewIsTheFile(c: Config, s: FileState, clock: int, t1: int, t2: int)
    requires c.maxSize >= 1 && c.ttl >= 1 && MemoryMatchesFile(c, s, clock) && clock <= t1 <= t2
    ensures View(c, s, t1, t2) == FileState(Unexpired(OnDisk(s), t2), true, s.file)
  {
    if s.loaded {
      PruneIsExpiry(c, s.entries, t2);
    } else if s.file.Some? {
      var es := s.file.value;
      NonBlankKeepsWellMade(c, es);
      PruneIsExpiry(c, es, t1);
      UnexpiredIsWellMade(c, es, t1);
      PruneIsExpiry(c, Unexpired(es, t1), t2);
      UnexpiredAgain(es, t1, t2);
    }
  }

  ghost predicate OpInTime(op: FileOp, clock: int, end: int) {
    match op
    case ClaimKey(_, t1, t2, t3, t4, t5) => clock <= t1 <= t2 <= t3 <= t4 <= t5 <= end
    case HasKeyNow(_, t1, t2) => clock <= t1 <= t2 <= end
    case Keys(t1, t2) => clock <= t1 <= t2 <= end
    case Clear(t1, t2) => clock <= t1 <= t2 <= end
  }

  /** Two states with the same file give every operation the same answer, and end in the same state unless the
      operation is a claim of a blank key, which does nothing. */
  lemma SameFileSameStep(c: Config, a: FileState, b: FileState, op: FileOp, clock: int, end: int)
    requires c.maxSize >= 1 && c.ttl >= 1
    requires MemoryMatchesFile(c, a, clock) && MemoryMatchesFile(c, b, clock) && a.file == b.file
    requires OpInTime(op, clock, end)
    ensures Perform(c, a, op).1 == Perform(c, b, op).1
    ensures if op.ClaimKey? && op.key == "" then Perform(c, a, op).0 == a && Perform(c, b, op).0 == b
            else Perform(c, a, op).0 == Perform(c, b, op).0
  {
    if !op.Clear? && !(op.ClaimKey? && op.key == "") {
      LoadedViewIsTheFile(c, a, clock, op.t1, op.t2);
      LoadedViewIsTheFile(c, b, clock, op.t1, op.t2);
    }
  }

  lemma ViewMatchesFile(c: Config, s: FileState, clock: int, t1: int, t2: int, end: int)
    requires c.maxSize >= 1 && c.ttl >= 1 && MemoryMatchesFile(c, s, clock) && clock <= t1 <= t2 <= end
    ensures MemoryMatchesFile(c, View(c, s, t1, t2), end)
  {
    LoadedViewIsTheFile(c, s, clock, t1, t2);
    UnexpiredIsWellMade(c, OnDisk(s), t2);
    forall t | end <= t
      ensures Unexpired(Unexpired(OnDisk(s), t2), t) == Unexpired(OnDisk(s), t)
    {
      UnexpiredAgain(OnDisk(s), t2, t);
    }
  }

  /** Pruning well-made entries, one too many at most, leaves well-made entries. */
  lemma PruneIsWellMade(c: Config, es: seq<Entry>, e: Entry, now: int)
    requires c.maxSize >= 1 && c.ttl >= 1 && WellMade(c, es) && e.key != "" && e.expiresAt == e.createdAt + c.ttl
    ensures WellMade(c, Prune(c, es + [e], now))
  {
    var live := Unexpired(es + [e], now);
    assert (es + [e])[..|es|] == es;
    UnexpiredIsWellMade(c, es, now);
    assert forall k :: 0 <= k < |live| ==> live[k].key != "" && live[k].expiresAt == live[k].createdAt + c.ttl;
    if |live| > c.maxSize {
      var kept := RemoveAt(live, OldestIndex(c, live));
      assert Evict(c, kept) == kept;
    }
    RepairIsIdentity(c, Evict(c, live));
  }

  lemma ClaimKeepsMatch(c: Config, s: FileState, key: string, t3: int, t4: int, t5: int, end: int)
    requires c.maxSize >= 1 && c.ttl >= 1 && MemoryMatchesFile(c, s, end) && key != ""
    ensures MemoryMatchesFile(c, ClaimOn(c, s, key, t3, t4, t5).0, end)
  {
    PruneIsWellMade(c, s.entries, Entry(key, t3, t3 + c.ttl), t4);
    var added := Prune(c, s.entries + [Entry(key, t3, t3 + c.ttl)], t4);
    PruneIsExpiry(c, added, t5);
    UnexpiredIsWellMade(c, added, t5);
  }

  lemma StepKeepsMatch(c: Config, s: FileState, op: FileOp, clock: int, end: int)
    requires c.maxSize >= 1 && c.ttl >= 1 && MemoryMatchesFile(c, s, clock) && OpInTime(op, clock, end) && clock <= end
    ensures MemoryMatchesFile(c, Perform(c, s, op).0, end)
  {
    match op
    case ClaimKey(key, t1, t2, t3, t4, t5) =>
      if key != "" {
        ViewMatchesFile(c, s, clock, t1, t2, end);
        ClaimKeepsMatch(c, View(c, s, t1, t2), key, t3, t4, t5, end);
      }
    case HasKeyNow(_, t1, t2) => ViewMatchesFile(c, s, clock, t1, t2, end);
    case Keys(t1, t2) => ViewMatchesFile(c, s, clock, t1, t2, end);
    case Clear(_, t2) =>
  }

  // ------------------------------------------------------------------ main result

  datatype Event = Do(op: FileOp, end: int) | Restart

  /** The answers given to the operations, in order, with the process restarting where the events say. */
  function Answers(c: Config, s: FileState, events: seq<Event>): seq<Answer>
    requires c.maxSize >= 1
    decreases |events|
  {
    if events == [] then []
    else
      match events[0]
      case Restart => Answers(c, Restarted(s), events[1..])
      case Do(op, _) => [Perform(c, s, op).1] + Answers(c, Perform(c, s, op).0, events[1..])
  }

  function WithoutRestarts(events: seq<Event>): seq<Event> {
    if events == [] then []
    else (if events[0].Restart? then [] else [events[0]]) + WithoutRestarts(events[1..])
  }

  ghost predicate TimelyEvents(events: seq<Event>, clock: int) {
    events == [] ||
    match events[0]
    case Restart => TimelyEvents(events[1..], clock)
    case Do(op, end) => clock <= end && OpInTime(op, clock, end) && TimelyEvents(events[1..], end)
  }

  lemma {:induction false} RestartsAreInvisible(c: Config, a: FileState, b: FileState, events: seq<Event>, clock: int)
    requires c.maxSize >= 1 && c.ttl >= 1
    requires MemoryMatchesFile(c, a, clock) && MemoryMatchesFile(c, b, clock) && a.file == b.file
    requires TimelyEvents(events, clock)
    ensures Answers(c, a, events) == Answers(c, b, WithoutRestarts(events))
    decreases |events|
  {
    if events != [] {
      match events[0] {
        case Restart =>
          RestartsAreInvisible(c, Restarted(a), b, events[1..], clock);
          assert [] + WithoutRestarts(events[1..]) == WithoutRestarts(events[1..]);
        case Do(op, end) =>
          SameFileSameStep(c, a, b, op, clock, end);
          StepKeepsMatch(c, a, op, clock, end);
          StepKeepsMatch(c, b, op, clock, end);
          RestartsAreInvisible(c, Perform(c, a, op).0, Perform(c, b, op).0, events[1..], end);
          assert WithoutRestarts(events)[1..] == WithoutRestarts(events[1..]);
      }
    }
  }

  /** However often the process restarts, every claim, query and snapshot is answered as if it never had. */
  lemma RestartingChangesNoAnswer(c: Config, events: seq<Event>, clock: int)
    requires c.maxSize >= 1 && c.ttl >= 1 && TimelyEvents(events, clock)
    ensures Answers(c, FileState([], false, None), events) == Answers(c, FileState([], false, None), WithoutRestarts(events))
  {
    RestartsAreInvisible(c, FileState([], false, None), FileState([], false, None), events, clock);
  }

  // ------------------------------------------------------------------ answers from the history

  /** The state after some events; the claims accepted since the last clear, restarts or not; and the last time. */
  datatype Tracked = Tracked(s: FileState, history: seq<Accepted>, clock: int)

  function Next(c: Config, h: Tracked, e: Event): Tracked
    requires c.maxSize >= 1
  {
    match e
    case Restart => h.(s := Restarted(h.s))
    case Do(op, end) =>
      var (s, answer) := Perform(c, h.s, op);
      var history :=
        match op
        case ClaimKey(key, _, _, t3, _, _) => if answer == Flag(true) then h.history + [Accepted(key, t3)] else h.history
        case Clear(_, _) => []
        case _ => h.history;
      Tracked(s, history, end)
  }

  /** No file yet, and a fresh process. */
  function After(c: Config, events: seq<Event>, start: int): Tracked
    requires c.maxSize >= 1
  {
    if events == [] then Tracked(FileState([], false, None), [], start)
    else Next(c, After(c, events[..|events| - 1], start), events[|events| - 1])
  }

  /** The clock does not run backwards, and successive claims get strictly later creation times. */
  ghost predicate NextInTime(h: Tracked, e: Event) {
    e.Do? ==>
      && h.clock <= e.end && OpInTime(e.op, h.clock, e.end)
      && (e.op.ClaimKey? && h.history != [] ==> h.history[|h.history| - 1].at < e.op.t3)
  }

  ghost predicate AllInTime(c: Config, events: seq<Event>, start: int)
    requires c.maxSize >= 1
  {
    events == [] ||
    (AllInTime(c, events[..|events| - 1], start) && NextInTime(After(c, events[..|events| - 1], start), events[|events| - 1]))
  }

  /** The file holds the latest accepted claims, and memory agrees with it. */
  ghost predicate FileHoldsTheLatest(c: Config, h: Tracked) {
    MemoryMatchesFile(c, h.s, h.clock) && HoldsTheLatest(c, State(OnDisk(h.s), h.history, h.clock))
  }

  lemma HoldsLater(c: Config, es: seq<Entry>, history: seq<Accepted>, clock: int, later: int)
    requires HoldsTheLatest(c, State(es, history, clock)) && clock <= later
    ensures HoldsTheLatest(c, State(es, history, later))
  {
    var low :| HeldFrom(c, Created(c, history), es, low, clock);
    assert HeldFrom(c, Created(c, history), es, low, later);
  }

  /** The claims that the history's rules still hold: among the last `maxSize`, and not expired. */
  ghost predicate IsHeld(c: Config, history: seq<Accepted>, i: int, now: int) {
    |history| - c.maxSize <= i < |history| && 0 <= i && history[i].at + c.ttl > now
  }

  /** The keys are those of the claims still held, in the order in which they were accepted. */
  ghost predicate AreHeldKeys(c: Config, history: seq<Accepted>, keys: seq<string>, now: int) {
    exists low :: HeldKeysFrom(c, history, keys, low, now)
  }

  ghost predicate HeldKeysFrom(c: Config, history: seq<Accepted>, keys: seq<string>, low: nat, now: int) {
    && low <= |history| && |keys| == |history| - low
    && (forall k :: 0 <= k < |keys| ==> keys[k] == history[low + k].key)
    && forall i :: 0 <= i < |history| ==> (low <= i <==> IsHeld(c, history, i, now))
  }

  /** What an operation sees is what the history still holds. */
  lemma ViewIsTheHistory(c: Config, h: Tracked, t1: int, t2: int, key: string)
    requires c.maxSize >= 1 && c.ttl >= 1 && FileHoldsTheLatest(c, h) && h.clock <= t1 <= t2
    ensures var seen := View(c, h.s, t1, t2);
            && seen == FileState(Prune(c, OnDisk(h.s), t2), true, h.s.file)
            && HoldsTheLatest(c, State(seen.entries, h.history, t2))
            && (HasKey(seen.entries, key) <==> RecentlyClaimed(c, h.history, key, t2))
  {
    LoadedViewIsTheFile(c, h.s, h.clock, t1, t2);
    PruneIsExpiry(c, OnDisk(h.s), t2);
    PruneKeepsTheLatest(c, State(OnDisk(h.s), h.history, h.clock), t2, key);
  }

  lemma KeysAreTheHeldOnes(c: Config, h: Tracked, t1: int, t2: int)
    requires c.maxSize >= 1 && c.ttl >= 1 && FileHoldsTheLatest(c, h) && h.clock <= t1 <= t2
    ensures AreHeldKeys(c, h.history, KeysOf(View(c, h.s, t1, t2).entries), t2)
  {
    LoadedViewIsTheFile(c, h.s, h.clock, t1, t2);
    PruneIsExpiry(c, OnDisk(h.s), t2);
    var all, held := Created(c, h.history), OnDisk(h.s);
    var low :| HeldFrom(c, all, held, low, h.clock);
    var higher := PruneHeld(c, all, held, low, h.clock, t2);
    HeldKeysOfSuffix(c, h.history, Prune(c, held, t2), higher, t2);
  }

  lemma HeldKeysOfSuffix(c: Config, history: seq<Accepted>, held: seq<Entry>, low: nat, now: int)
    requires c.maxSize >= 1 && Increasing(c, Created(c, history)) && HeldFrom(c, Created(c, history), held, low, now)
    requires low < |history| ==> Created(c, history)[low].expiresAt > now
    ensures HeldKeysFrom(c, history, KeysOf(held), low, now)
  {
    var all := Created(c, history);
    forall i | 0 <= i < |history|
      ensures low <= i <==> IsHeld(c, history, i, now)
    {
      assert all[i].expiresAt == history[i].at + c.ttl;
      assert low < i ==> all[low].createdAt < all[i].createdAt;
    }
  }

  lemma InsertHoldsTheLatest(c: Config, seen: State, key: string, t3: int, t4: int, t5: int, end: int)
    requires c.maxSize >= 1 && c.ttl >= 1 && HoldsTheLatest(c, seen) && seen.clock <= t4 <= t5 <= end
    requires seen.history != [] ==> seen.history[|seen.history| - 1].at < t3
    ensures var saved := Prune(c, Prune(c, seen.entries + [Entry(key, t3, t3 + c.ttl)], t4), t5);
            HoldsTheLatest(c, State(saved, seen.history + [Accepted(key, t3)], end))
  {
    var added := Prune(c, seen.entries + [Entry(key, t3, t3 + c.ttl)], t4);
    var history := seen.history + [Accepted(key, t3)];
    AppendKeepsTheLatest(c, seen, key, t3, t4);
    PruneKeepsTheLatest(c, State(added, history, t4), t5, "");
    HoldsLater(c, Prune(c, added, t5), history, t5, end);
  }

  /** What a claim does, given the entries it sees. */
  lemma ClaimOutcome(c: Config, h: Tracked, key: string, t1: int, t2: int, t3: int, t4: int, t5: int, seen: seq<Entry>)
    requires c.maxSize >= 1 && key != "" && seen == View(c, h.s, t1, t2).entries && !HasKey(seen, key)
    ensures var saved := Prune(c, Prune(c, seen + [Entry(key, t3, t3 + c.ttl)], t4), t5);
            Perform(c, h.s, ClaimKey(key, t1, t2, t3, t4, t5)) == (FileState(saved, true, Some(saved)), Flag(true))
  {
  }

  /** An accepted claim: the file holds it as the latest. */
  lemma AcceptedIsTheLatest(
      c: Config, h: Tracked, key: string, t1: int, t2: int, t3: int, t4: int, t5: int, end: int, seen: seq<Entry>)
    requires c.maxSize >= 1 && c.ttl >= 1 && key != "" && seen == View(c, h.s, t1, t2).entries && !HasKey(seen, key)
    requires HoldsTheLatest(c, State(seen, h.history, t2)) && t2 <= t4 <= t5 <= end
    requires h.history != [] ==> h.history[|h.history| - 1].at < t3
    ensures var (s, answer) := Perform(c, h.s, ClaimKey(key, t1, t2, t3, t4, t5));
            answer == Flag(true) && HoldsTheLatest(c, State(OnDisk(s), h.history + [Accepted(key, t3)], end))
  {
    ClaimOutcome(c, h, key, t1, t2, t3, t4, t5, seen);
    InsertHoldsTheLatest(c, State(seen, h.history, t2), key, t3, t4, t5, end);
  }

  lemma NextHoldsTheLatest(c: Config, h: Tracked, e: Event)
    requires c.maxSize >= 1 && c.ttl >= 1 && FileHoldsTheLatest(c, h) && NextInTime(h, e)
    ensures FileHoldsTheLatest(c, Next(c, h, e))
  {
    if e.Do? {
      var op, end := e.op, e.end;
      StepKeepsMatch(c, h.s, op, h.clock, end);
      HoldsLater(c, OnDisk(h.s), h.history, h.clock, end);
      match op {
        case ClaimKey(key, t1, t2, t3, t4, t5) =>
          if key != "" {
            ViewIsTheHistory(c, h, t1, t2, key);
            var seen := View(c, h.s, t1, t2).entries;
            if !HasKey(seen, key) {
              AcceptedIsTheLatest(c, h, key, t1, t2, t3, t4, t5, end, seen);
            }
          }
        case HasKeyNow(_, t1, t2) => ViewIsTheHistory(c, h, t1, t2, "");
        case Keys(t1, t2) => ViewIsTheHistory(c, h, t1, t2, "");
        case Clear(_, t2) => ClearedHoldsTheLatest(c, t2, end);
      }
    }
  }

  lemma ClearedHoldsTheLatest(c: Config, now: int, end: int)
    requires c.maxSize >= 1 && c.ttl >= 1
    ensures Prune(c, [], now) == [] && HoldsTheLatest(c, State([], [], end))
  {
    assert HeldFrom(c, Created(c, []), [], 0, end);
  }

  lemma {:induction false} ReachableFileHoldsTheLatest(c: Config, events: seq<Event>, start: int)
    requires c.maxSize >= 1 && c.ttl >= 1 && AllInTime(c, events, start)
    ensures FileHoldsTheLatest(c, After(c, events, start))
  {
    if events == [] {
      ClearedHoldsTheLatest(c, start, start);
    } else {
      ReachableFileHoldsTheLatest(c, events[..|events| - 1], start);
      NextHoldsTheLatest(c, After(c, events[..|events| - 1], start), events[|events| - 1]);
    }
  }

  /** The answer that the history of accepted claims gives. */
  ghost predicate AnsweredFromHistory(c: Config, history: seq<Accepted>, op: FileOp, answer: Answer) {
    match op
    case ClaimKey(key, _, t2, _, _, _) => answer == Flag(key != "" && !RecentlyClaimed(c, history, key, t2))
    case HasKeyNow(key, _, t2) => answer == Flag(RecentlyClaimed(c, history, key, t2))
    case Keys(_, t2) => answer.KeyList? && AreHeldKeys(c, history, answer.keys, t2)
    case Clear(_, _) => answer == Done
  }

  /** After any events in time, restarts included, every operation is answered from the accepted claims: a claim is
      accepted exactly when its key is not blank and not among the last `maxSize` accepted claims still unexpired; a
      query affirms exactly those; and the snapshot lists their keys in the order of acceptance. */
  lemma AnswersFollowTheHistory(c: Config, events: seq<Event>, start: int, op: FileOp, end: int)
    requires c.maxSize >= 1 && c.ttl >= 1
    requires AllInTime(c, events, start) && NextInTime(After(c, events, start), Do(op, end))
    ensures var h := After(c, events, start); AnsweredFromHistory(c, h.history, op, Perform(c, h.s, op).1)
  {
    ReachableFileHoldsTheLatest(c, events, start);
    var h := After(c, events, start);
    match op {
      case ClaimKey(key, t1, t2, _, _, _) => ViewIsTheHistory(c, h, t1, t2, key);
      case HasKeyNow(key, t1, t2) => ViewIsTheHistory(c, h, t1, t2, key);
      case Keys(t1, t2) => KeysAreTheHeldOnes(c, h, t1, t2);
      case Clear(_, _) =>
    }
  }
}
