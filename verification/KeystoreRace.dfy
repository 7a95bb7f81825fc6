/** The calls of `crates/store-android/src/keystore_ops.rs` by several threads: no mutex
    spans a call, so each look into the cache, change of the cache and Keystore call is a
    step of its own. */
module KeystoreRace {
  import opened Machine
  import Caches = OperationCaches
  import Ops = KeystoreOps

  /** Calls with valid arguments and a cooperating host. `removed` is what the Java side
      answers to the deletion. */
  datatype Call =
    | Store(key: string, data: Bytes)
    | Retrieve(key: string, requireBio: bool)
    | Delete(key: string, removed: bool)

  /** `Missed`: the cache had nothing. `Read`: the Keystore answered, the cache is not
      filled yet. `Removed`: the Keystore call of a deletion is done, the cache still has
      its entry. */
  datatype Pc = Begin | Missed | Read(data: Bytes) | Removed | Returned(answer: Option<Bytes>)

  datatype Thread = Thread(call: Call, pc: Pc)

  datatype System = System(keystore: map<string, Bytes>, entries: Caches.Entries, threads: seq<Thread>)
  {
    function At(t: nat, pc: Pc): System
      requires t < |threads|
    {
      this.(threads := threads[t := threads[t].(pc := pc)])
    }

    function Held(key: string): Option<Bytes> {
      if key in keystore then Some(keystore[key]) else None
    }
  }

  /** Thread `t` moves, and reads the clock as `now`. */
  datatype Move = Move(t: nat, now: u64)

  function Pair(s: System, m: Move): (Call, Pc)
    requires m.t < |s.threads|
  {
    (s.threads[m.t].call, s.threads[m.t].pc)
  }

  ghost predicate Step(config: Caches.Config, s: System, m: Move, s': System) {
    if m.t >= |s.threads| then s' == s
    else
      match Pair(s, m)
      case (Store(key, data), Begin) => s' == s.At(m.t, Returned(None)).(keystore := s.keystore[key := data])
      case (Retrieve(key, requireBio), Begin) =>
        if !config.enabled || requireBio then s' == s.At(m.t, Returned(s.Held(key)))
        else
          (match Caches.Lookup(s.entries, key, m.now)
           case Some(data) => s' == s.At(m.t, Returned(Some(data)))
           case None => s' == s.At(m.t, Missed))
      case (Retrieve(key, _), Missed) =>
        s' == s.At(m.t, if key in s.keystore then Read(s.keystore[key]) else Returned(None))
      case (Retrieve(key, _), Read(data)) =>
        && s'.keystore == s.keystore && s'.threads == s.At(m.t, Returned(Some(data))).threads
        && Caches.Step(config, s.entries, Caches.Add(key, data, m.now), s'.entries)
      case (Delete(key, removed), Begin) =>
        s' == s.At(m.t, Removed).(keystore := if removed then s.keystore - {key} else s.keystore)
      case (Delete(key, _), Removed) =>
        s' == s.At(m.t, Returned(None)).(entries := if config.enabled then s.entries - {key} else s.entries)
      case _ => s' == s
  }

  ghost predicate IsRun(config: Caches.Config, moves: seq<Move>, states: seq<System>) {
    && config.enabled
    && |states| == |moves| + 1
    && states[0].entries == map[]
    && (forall t :: 0 <= t < |states[0].threads| ==> states[0].threads[t].pc == Begin)
    && forall i :: 0 <= i < |moves| ==> Step(config, states[i], moves[i], states[i + 1])
  }

  lemma RunStep(config: Caches.Config, moves: seq<Move>, states: seq<System>, i: nat)
    requires IsRun(config, moves, states) && i < |moves|
    ensures |states| == |moves| + 1 && Step(config, states[i], moves[i], states[i + 1])
  {
  }

  lemma RunStart(config: Caches.Config, moves: seq<Move>, states: seq<System>)
    requires IsRun(config, moves, states)
    ensures config.enabled && |states| == |moves| + 1 && states[0].entries == map[]
    ensures forall t :: 0 <= t < |states[0].threads| ==> states[0].threads[t].pc == Begin
  {
  }

  // ----- Which move does what -----

  predicate Moves(s: System, m: Move, pc: Pc) {
    m.t < |s.threads| && s.threads[m.t].pc == pc
  }

  /** The move changes what the Keystore holds under `key`, or sets it again. */
  predicate Writes(s: System, m: Move, key: string) {
    Moves(s, m, Begin) && (s.threads[m.t].call.Store? || s.threads[m.t].call == Delete(key, true))
    && s.threads[m.t].call.key == key
  }

  /** What the Keystore holds under the key after such a move. */
  function Effect(s: System, m: Move): Option<Bytes>
    requires m.t < |s.threads|
  {
    var call := s.threads[m.t].call;
    if call.Store? then Some(call.data) else None
  }

  predicate Fills(s: System, m: Move, key: string) {
    && m.t < |s.threads| && s.threads[m.t].call.Retrieve? && s.threads[m.t].call.key == key
    && s.threads[m.t].pc.Read?
  }

  predicate Uncaches(s: System, m: Move, key: string) {
    Moves(s, m, Removed) && s.threads[m.t].call.Delete? && s.threads[m.t].call.key == key
  }

  // ----- Where in a run it happened -----

  /** The last change of the Keystore under `key` from position `r` on. */
  function LastWrite(moves: seq<Move>, states: seq<System>, r: nat, n: nat, key: string): (w: Option<nat>)
    requires n <= |moves| < |states|
    ensures w.Some? ==> r <= w.value < n && Writes(states[w.value], moves[w.value], key)
  {
    if n <= r then None
    else if Writes(states[n - 1], moves[n - 1], key) then Some(n - 1)
    else LastWrite(moves, states, r, n - 1, key)
  }

  /** The move that filled the entry which the cache may still have. */
  function FilledAt(moves: seq<Move>, states: seq<System>, n: nat, key: string): (p: Option<nat>)
    requires n <= |moves| < |states|
    ensures p.Some? ==> p.value < n && Fills(states[p.value], moves[p.value], key)
    ensures p.Some? ==> forall i :: p.value < i < n ==> !Uncaches(states[i], moves[i], key)
  {
    if n == 0 then None
    else if Fills(states[n - 1], moves[n - 1], key) then Some(n - 1)
    else if Uncaches(states[n - 1], moves[n - 1], key) then None
    else FilledAt(moves, states, n - 1, key)
  }

  /** The move by which thread `t` read the Keystore after it had missed the cache. */
  function ReadAt(moves: seq<Move>, states: seq<System>, n: nat, t: nat): (r: Option<nat>)
    requires n <= |moves| < |states|
    ensures r.Some? ==> r.value < n && moves[r.value].t == t && Moves(states[r.value], moves[r.value], Missed)
  {
    if n == 0 then None
    else if moves[n - 1].t == t && Moves(states[n - 1], moves[n - 1], Missed) then Some(n - 1)
    else ReadAt(moves, states, n - 1, t)
  }

  // ----- What Keystore, readers and cache hold -----

  lemma StepWrites(config: Caches.Config, s: System, m: Move, s': System, key: string)
    requires Step(config, s, m, s')
    ensures s'.Held(key) == if Writes(s, m, key) then Effect(s, m) else s.Held(key)
  {
    hide Caches.Step, Caches.Lookup;
  }

  /** A move changes the mover's program counter at most, and no call. */
  lemma StepThreads(config: Caches.Config, s: System, m: Move, s': System, t: nat)
    requires Step(config, s, m, s') && t < |s.threads|
    ensures |s'.threads| == |s.threads| && s'.threads[t].call == s.threads[t].call
    ensures m.t != t ==> s'.threads[t] == s.threads[t]
    ensures s.threads[t].call.Delete? && m.t == t && s.threads[t].pc == Begin ==> s'.threads[t].pc == Removed
  {
    hide Caches.Step, Caches.Lookup;
  }

  lemma {:induction false} HeldIsLastWrite(config: Caches.Config, moves: seq<Move>, states: seq<System>,
                                           r: nat, n: nat, key: string)
    requires IsRun(config, moves, states) && r <= n <= |moves|
    ensures var w := LastWrite(moves, states, r, n, key);
            states[n].Held(key) == if w.Some? then Effect(states[w.value], moves[w.value]) else states[r].Held(key)
  {
    hide IsRun, Step, Writes, Effect, System.Held;
    if r < n {
      HeldIsLastWrite(config, moves, states, r, n - 1, key);
      RunStep(config, moves, states, n - 1);
      StepWrites(config, states[n - 1], moves[n - 1], states[n], key);
    }
  }

  /** A thread that is about to fill the cache holds what the Keystore held at its read. */
  lemma {:induction false} ReaderHoldsOldData(config: Caches.Config, moves: seq<Move>, states: seq<System>, n: nat,
                                              t: nat)
    requires IsRun(config, moves, states) && n <= |moves|
    requires t < |states[n].threads| && states[n].threads[t].pc.Read? && states[n].threads[t].call.Retrieve?
    ensures var r := ReadAt(moves, states, n, t);
            && r.Some? && states[r.value].Held(states[n].threads[t].call.key) == Some(states[n].threads[t].pc.data)
            && t < |states[r.value].threads| && states[r.value].threads[t].call == states[n].threads[t].call
  {
    hide IsRun;
    RunStart(config, moves, states);
    RunStep(config, moves, states, n - 1);
    StepReads(config, states[n - 1], moves[n - 1], states[n], t);
    hide Step;
    if !(moves[n - 1].t == t && Moves(states[n - 1], moves[n - 1], Missed)) {
      ReaderHoldsOldData(config, moves, states, n - 1, t);
    }
  }

  /** A thread that holds data after a move read them in it or held them before. */
  lemma StepReads(config: Caches.Config, s: System, m: Move, s': System, t: nat)
    requires Step(config, s, m, s')
    requires t < |s'.threads| && s'.threads[t].pc.Read? && s'.threads[t].call.Retrieve?
    ensures |s.threads| == |s'.threads| && s.threads[t].call == s'.threads[t].call
    ensures if m.t == t && Moves(s, m, Missed) then s.Held(s.threads[t].call.key) == Some(s'.threads[t].pc.data)
            else s.threads[t] == s'.threads[t]
  {
    hide Caches.Step, Caches.Lookup;
  }

  /** A move by which thread `t` got `answer`: from the Keystore, or from the cache when no
      biometric check is asked for. */
  predicate AnswersFrom(s: System, m: Move, t: nat, key: string, requireBio: bool, answer: Option<Bytes>) {
    && m.t == t && t < |s.threads| && s.threads[t].call == Retrieve(key, requireBio)
    && (answer == s.Held(key)
        || (!requireBio && answer.Some? && answer == Caches.Lookup(s.entries, key, m.now)))
  }

  lemma StepAnswers(config: Caches.Config, s: System, m: Move, s': System, t: nat)
    requires Step(config, s, m, s') && t < |s'.threads|
    requires s'.threads[t].call.Retrieve? && s'.threads[t].pc.Returned?
    ensures |s.threads| == |s'.threads| && s.threads[t].call == s'.threads[t].call
    ensures || s.threads[t] == s'.threads[t]
            || (s.threads[t].pc.Read? && s'.threads[t].pc.answer == Some(s.threads[t].pc.data))
            || AnswersFrom(s, m, t, s.threads[t].call.key, s.threads[t].call.requireBio, s'.threads[t].pc.answer)
  {
    hide Caches.Step, Caches.IsFresh;
  }

  /** In every run a retrieval answers what the Keystore held at one of its own moves, or
      what the cache gave it at one; with a biometric check always the former. */
  lemma {:induction false} AnswersAreOwnReads(config: Caches.Config, moves: seq<Move>, states: seq<System>, n: nat,
                                              t: nat)
    requires IsRun(config, moves, states) && n <= |moves|
    requires t < |states[n].threads| && states[n].threads[t].call.Retrieve? && states[n].threads[t].pc.Returned?
    ensures var th := states[n].threads[t];
            exists i :: 0 <= i < n && AnswersFrom(states[i], moves[i], t, th.call.key, th.call.requireBio, th.pc.answer)
  {
    hide IsRun;
    RunStart(config, moves, states);
    RunStep(config, moves, states, n - 1);
    StepAnswers(config, states[n - 1], moves[n - 1], states[n], t);
    hide Step;
    var th, before := states[n].threads[t], states[n - 1].threads[t];
    if before == th {
      AnswersAreOwnReads(config, moves, states, n - 1, t);
    } else if before.pc.Read? {
      ReaderHoldsOldData(config, moves, states, n - 1, t);
      var r := ReadAt(moves, states, n - 1, t).value;
      assert AnswersFrom(states[r], moves[r], t, th.call.key, th.call.requireBio, th.pc.answer);
    }
  }

  /** A cache entry is the data that the thread which filled it held. */
  lemma {:induction false} EntryIsFilledData(config: Caches.Config, moves: seq<Move>, states: seq<System>, n: nat,
                                             key: string)
    requires IsRun(config, moves, states) && n <= |moves| && key in states[n].entries
    ensures var p := FilledAt(moves, states, n, key);
            p.Some? && states[n].entries[key].data == states[p.value].threads[moves[p.value].t].pc.data
  {
    hide IsRun;
    RunStart(config, moves, states);
    RunStep(config, moves, states, n - 1);
    var s, m := states[n - 1], moves[n - 1];
    StepFills(config, s, m, states[n], key);
    hide Step, Fills, Uncaches;
    if !Fills(s, m, key) {
      EntryIsFilledData(config, moves, states, n - 1, key);
    }
  }

  /** An entry after a move was filled by it or was there before. */
  lemma StepFills(config: Caches.Config, s: System, m: Move, s': System, key: string)
    requires config.enabled && Step(config, s, m, s') && key in s'.entries
    ensures if Fills(s, m, key) then s'.entries[key].data == s.threads[m.t].pc.data
            else !Uncaches(s, m, key) && key in s.entries && s'.entries[key] == s.entries[key]
  {
    hide Caches.Lookup, Caches.Adds;
    if m.t < |s.threads| && s.threads[m.t].call.Retrieve? && s.threads[m.t].pc.Read? {
      var e := Caches.Add(s.threads[m.t].call.key, s.threads[m.t].pc.data, m.now);
      Ops.AddChangesOneKey(config, s.entries, e, s'.entries, key);
    }
  }

  // ----- When the cache differs from the Keystore -----

  /** The entry of `key` was filled by the move `p` with what its thread read at `r`. */
  ghost predicate CameFrom(moves: seq<Move>, states: seq<System>, n: nat, key: string, p: nat, r: nat)
    requires n <= |moves| < |states| && key in states[n].entries
  {
    && FilledAt(moves, states, n, key) == Some(p)
    && r < p && ReadAt(moves, states, p, moves[p].t) == Some(r)
    && states[r].Held(key) == Some(states[n].entries[key].data)
  }

  lemma EntryCameFrom(config: Caches.Config, moves: seq<Move>, states: seq<System>, n: nat, key: string)
    returns (p: nat, r: nat)
    requires IsRun(config, moves, states) && n <= |moves| && key in states[n].entries
    ensures CameFrom(moves, states, n, key, p, r)
  {
    EntryIsFilledData(config, moves, states, n, key);
    p := FilledAt(moves, states, n, key).value;
    ReaderHoldsOldData(config, moves, states, p, moves[p].t);
    r := ReadAt(moves, states, p, moves[p].t).value;
  }

  /** In every run a cached entry differs from the Keystore exactly when, since the read
      that it came from, the Keystore was last changed to something else. */
  lemma EntryDiffersExactlyWhen(config: Caches.Config, moves: seq<Move>, states: seq<System>, n: nat, key: string)
    returns (p: nat, r: nat)
    requires IsRun(config, moves, states) && n <= |moves| && key in states[n].entries
    ensures CameFrom(moves, states, n, key, p, r)
    ensures var (data, w) := (states[n].entries[key].data, LastWrite(moves, states, r, n, key));
            states[n].Held(key) != Some(data) <==> w.Some? && Effect(states[w.value], moves[w.value]) != Some(data)
  {
    p, r := EntryCameFrom(config, moves, states, n, key);
    HeldIsLastWrite(config, moves, states, r, n, key);
  }

  // ----- When the cache serves deleted data -----

  /** A thread that has deleted from the Keystore is still to clear the cache, or has done
      so at a later move. */
  lemma {:induction false} DeletionGoesOn(config: Caches.Config, moves: seq<Move>, states: seq<System>, d: nat, n: nat,
                                          key: string)
    requires IsRun(config, moves, states) && d < n <= |moves|
    requires Moves(states[d], moves[d], Begin) && states[d].threads[moves[d].t].call == Delete(key, true)
    ensures var t := moves[d].t;
            && t < |states[n].threads| && states[n].threads[t].call == Delete(key, true)
            && (states[n].threads[t].pc == Removed
                || exists c :: d < c < n && moves[c].t == t && Uncaches(states[c], moves[c], key))
  {
    hide Step, IsRun, System.Held;
    var t := moves[d].t;
    RunStep(config, moves, states, n - 1);
    if n == d + 1 {
      StepThreads(config, states[d], moves[d], states[n], t);
    } else {
      DeletionGoesOn(config, moves, states, d, n - 1, key);
      StepThreads(config, states[n - 1], moves[n - 1], states[n], t);
      if states[n - 1].threads[t].pc == Removed && moves[n - 1].t == t {
        assert Uncaches(states[n - 1], moves[n - 1], key);
      }
    }
  }

  /** The read `r` came before the deletion `d` from the Keystore, and the addition `p`
      after the same thread had cleared the cache at `c`. */
  ghost predicate Overtakes(moves: seq<Move>, states: seq<System>, n: nat, key: string, r: nat, d: nat, c: nat, p: nat)
    requires n <= |moves| < |states|
  {
    && r < d < c < p < n
    && LastWrite(moves, states, r, n, key) == Some(d) && Effect(states[d], moves[d]) == None
    && moves[c].t == moves[d].t && Uncaches(states[c], moves[c], key)
  }

  /** When no deletion is under way, the cache has an entry for a key that the Keystore does
      not hold exactly when the retrieval that filled it overtook the last deletion: it had
      read before, and added after that deletion had cleared the cache. */
  lemma DeletedDataCachedExactlyWhen(config: Caches.Config, moves: seq<Move>, states: seq<System>, n: nat, key: string)
    returns (p: nat, r: nat)
    requires IsRun(config, moves, states) && n <= |moves| && key in states[n].entries
    requires forall t :: 0 <= t < |states[n].threads| ==> states[n].threads[t].pc != Removed
    ensures CameFrom(moves, states, n, key, p, r)
    ensures states[n].Held(key) == None <==> exists d, c :: Overtakes(moves, states, n, key, r, d, c, p)
  {
    hide IsRun, Step, System.Held, FilledAt, ReadAt;
    p, r := EntryDiffersExactlyWhen(config, moves, states, n, key);
    DeletionEnds(config, moves, states, n, key, p, r);
  }

  lemma DeletionEnds(config: Caches.Config, moves: seq<Move>, states: seq<System>, n: nat, key: string, p: nat, r: nat)
    requires IsRun(config, moves, states) && n <= |moves| && key in states[n].entries
    requires forall t :: 0 <= t < |states[n].threads| ==> states[n].threads[t].pc != Removed
    requires CameFrom(moves, states, n, key, p, r)
    ensures states[n].Held(key) == None <==> exists d, c :: Overtakes(moves, states, n, key, r, d, c, p)
  {
    hide IsRun, Step, System.Held;
    RunStart(config, moves, states);
    HeldIsLastWrite(config, moves, states, r, n, key);
    assert states[r].Held(key) != None;
    if states[n].Held(key) == None {
      var d := LastWrite(moves, states, r, n, key).value;
      assert states[d].threads[moves[d].t].call == Delete(key, true);
      DeletionGoesOn(config, moves, states, d, n, key);
      var c :| d < c < n && moves[c].t == moves[d].t && Uncaches(states[c], moves[c], key);
      assert Overtakes(moves, states, n, key, r, d, c, p);
    }
  }

  /** The states of the run below. */
  function Racing(config: Caches.Config, key: string, data: Bytes, now: u64, i: nat): System
    requires i <= 6
  {
    var get, remove := Retrieve(key, false), Delete(key, true);
    var hit := Returned(Some(data));
    System(
      if i <= 2 then map[key := data] else map[],
      if i <= 4 then map[] else map[key := Caches.CachedOperation(key, data, now, config.ttl)],
      [Thread(get, if i == 0 then Begin else if i == 1 then Missed else if i <= 4 then Read(data) else hit),
       Thread(remove, if i <= 2 then Begin else if i == 3 then Removed else Returned(None)),
       Thread(get, if i <= 5 then Begin else hit)])
  }

  lemma RacesToDeletion(config: Caches.Config, key: string, data: Bytes, now: u64, i: nat)
    requires config.enabled && i < 3
    ensures Step(config, Racing(config, key, data, now, i), Move(if i <= 1 then 0 else 1, now),
                 Racing(config, key, data, now, i + 1))
  {
    hide Caches.Step;
    assert map[key := data] - {key} == map[];
  }

  lemma RacesPastDeletion(config: Caches.Config, key: string, data: Bytes, now: u64, i: nat)
    requires config.enabled && config.ttl > 0 && 3 <= i < 6
    ensures Step(config, Racing(config, key, data, now, i), Move(if i == 3 then 1 else if i == 4 then 0 else 2, now),
                 Racing(config, key, data, now, i + 1))
  {
    Ops.FreshForASecond(Caches.CachedOperation(key, data, now, config.ttl), now);
  }

  /** The run: a retrieval misses and reads, a deletion comes and goes, the retrieval adds
      what it read, and a later retrieval gets the deleted data from the cache. */
  lemma DeletedDataIsServed(config: Caches.Config, key: string, data: Bytes, now: u64)
    returns (moves: seq<Move>, states: seq<System>)
    requires config.enabled && config.ttl > 0 && Ops.ValidKey(key) && Ops.ValidData(data)
    ensures IsRun(config, moves, states) && |moves| == 6 && forall i :: 0 <= i <= 6 ==> |states[i].threads| == 3
    ensures states[0].keystore == map[key := data]
    ensures states[0].threads
            == [Thread(Retrieve(key, false), Begin), Thread(Delete(key, true), Begin),
                Thread(Retrieve(key, false), Begin)]
    ensures states[5].Held(key) == None && states[5].threads[1].pc.Returned? && states[5].threads[2].pc == Begin
    ensures states[6].threads[2].pc == Returned(Some(data))
  {
    moves := [Move(0, now), Move(0, now), Move(1, now), Move(1, now), Move(0, now), Move(2, now)];
    states := seq(7, i requires 0 <= i < 7 => Racing(config, key, data, now, i));
    forall i | 0 <= i < 6 ensures Step(config, states[i], moves[i], states[i + 1]) {
      if i < 3 {
        RacesToDeletion(config, key, data, now, i);
      } else {
        RacesPastDeletion(config, key, data, now, i);
      }
    }
  }
}
