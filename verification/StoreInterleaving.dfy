/** The store of `crates/core/src/storage_tests.rs` under any number of threads: each
    operation is a sequence of lock, write and unlock steps, and a scheduler picks the
    thread that moves next. */
module StoreInterleaving {
  import opened Machine
  import opened WalletTypes
  import opened Storage

  /** Where a thread stands in its operation. `Mid` is between the write to the data
      map and the write to the metadata map; `before` records the data map that the
      first write replaced (for the proof and for the answer of a deletion). */
  datatype Pc =
    | Ready
    | WithData
    | WithMetadata
    | WithBoth
    | Mid(before: Data)
    | Committed(reply: Reply)
    | MetadataReleased(reply: Reply)
    | Finished(reply: Reply)
  {
    predicate Replied() {
      Committed? || MetadataReleased? || Finished?
    }
  }

  datatype Thread = Thread(op: Op, pc: Pc)

  datatype System = System(
    data: Data,
    metadata: Metadata,
    dataLock: Option<nat>,
    metadataLock: Option<nat>,
    threads: seq<Thread>)
  {
    function At(t: nat, pc: Pc): System
      requires t < |threads|
    {
      this.(threads := threads[t := threads[t].(pc := pc)])
    }
  }

  /** The environment of a run: the encoding and the capacity. */
  datatype Env = Env(codec: Codec, capacity: nat)

  /** Operations that take the data mutex and then the metadata mutex. */
  predicate LocksBoth(op: Op) {
    op.PutCredential? || op.DeleteCredential? || op.ClearAll?
  }

  /** The next step of thread `t`, or none when it is blocked or finished. */
  function Next(env: Env, s: System, t: nat): Option<System>
    requires t < |s.threads|
  {
    var op := s.threads[t].op;
    match s.threads[t].pc
    case Ready =>
      if op.ListCredentials? then
        if s.metadataLock.None? then Some(s.At(t, WithMetadata).(metadataLock := Some(t))) else None
      else
        if s.dataLock.None? then Some(s.At(t, WithData).(dataLock := Some(t))) else None
    case WithData =>
      if LocksBoth(op) then
        if s.metadataLock.None? then Some(s.At(t, WithBoth).(metadataLock := Some(t))) else None
      else
        Some(s.At(t, Committed(Answer(env.codec, op, Store(s.data, map[])))).(data := WriteData(env.codec, op, s.data)))
    case WithMetadata =>
      Some(s.At(t, Committed(Answer(env.codec, op, Store(map[], s.metadata)))))
    case WithBoth =>
      if Refuses(op, s.metadata, env.capacity) then Some(s.At(t, Committed(Failed(StorageFull))))
      else Some(s.At(t, Mid(s.data)).(data := WriteData(env.codec, op, s.data)))
    case Mid(before) =>
      Some(s.At(t, Committed(Answer(env.codec, op, Store(before, s.metadata))))
            .(metadata := WriteMetadata(op, s.metadata)))
    case Committed(reply) =>
      if LocksBoth(op) then Some(s.At(t, MetadataReleased(reply)).(metadataLock := None))
      else if op.ListCredentials? then Some(s.At(t, Finished(reply)).(metadataLock := None))
      else Some(s.At(t, Finished(reply)).(dataLock := None))
    case MetadataReleased(reply) => Some(s.At(t, Finished(reply)).(dataLock := None))
    case Finished(_) => None
  }

  // ----- Invariant -----

  predicate HoldsData(th: Thread) {
    match th.pc
    case WithData => true
    case WithBoth => true
    case Mid(_) => true
    case Committed(_) => !th.op.ListCredentials?
    case MetadataReleased(_) => true
    case _ => false
  }

  predicate HoldsMetadata(th: Thread) {
    match th.pc
    case WithMetadata => true
    case WithBoth => true
    case Mid(_) => true
    case Committed(_) => LocksBoth(th.op) || th.op.ListCredentials?
    case _ => false
  }

  predicate PcFitsOp(th: Thread) {
    match th.pc
    case WithData => !th.op.ListCredentials?
    case WithMetadata => th.op.ListCredentials?
    case WithBoth => LocksBoth(th.op)
    case Mid(_) => LocksBoth(th.op)
    case MetadataReleased(_) => LocksBoth(th.op)
    case _ => true
  }

  /** Each mutex is owned by exactly the thread whose program counter says so. */
  ghost predicate LocksOk(s: System) {
    && (forall t :: 0 <= t < |s.threads| ==>
                      && PcFitsOp(s.threads[t])
                      && (HoldsData(s.threads[t]) <==> s.dataLock == Some(t))
                      && (HoldsMetadata(s.threads[t]) <==> s.metadataLock == Some(t)))
    && (s.dataLock.Some? ==> s.dataLock.value < |s.threads|)
    && (s.metadataLock.Some? ==> s.metadataLock.value < |s.threads|)
  }

  predicate InMid(s: System) {
    s.dataLock.Some? && s.dataLock.value < |s.threads| && s.threads[s.dataLock.value].pc.Mid?
  }

  /** The two maps as they are between operations: a first write that is not yet
      followed by its second is taken back. */
  function Settled(s: System): Store {
    Store(if InMid(s) then s.threads[s.dataLock.value].pc.before else s.data, s.metadata)
  }

  /** The settled maps stand for vault `v`, and a thread between its two writes has
      done exactly the first of them. */
  ghost predicate Shows(env: Env, s: System, v: Vault) {
    && Consistent(env.codec, Settled(s))
    && VaultOf(env.codec, Settled(s)) == v
    && |s.metadata| <= env.capacity
    && (InMid(s) ==>
          var th := s.threads[s.dataLock.value];
          && !Refuses(th.op, s.metadata, env.capacity)
          && s.data == WriteData(env.codec, th.op, th.pc.before))
  }

  ghost predicate Apart(s: System) {
    forall t :: 0 <= t < |s.threads| ==> KeepsApart(s.threads[t].op)
  }

  // ----- One step -----

  /** What a step may do to one mutex: leave it, take it when free, or give it back. */
  predicate LockMoves(before: Option<nat>, held: bool, after: Option<nat>, holds: bool, t: nat) {
    || (after == before && holds == held)
    || (before == None && after == Some(t) && !held && holds)
    || (before == Some(t) && after == None && held && !holds)
  }

  lemma StepMovesLocks(env: Env, s: System, t: nat)
    requires LocksOk(s) && t < |s.threads| && Next(env, s, t).Some?
    ensures var s' := Next(env, s, t).value;
            && s'.threads == s.threads[t := s'.threads[t]]
            && PcFitsOp(s'.threads[t])
            && LockMoves(s.dataLock, HoldsData(s.threads[t]), s'.dataLock, HoldsData(s'.threads[t]), t)
            && LockMoves(s.metadataLock, HoldsMetadata(s.threads[t]), s'.metadataLock, HoldsMetadata(s'.threads[t]), t)
  {
    hide Answer, WriteData, WriteMetadata, Refuses;
  }

  lemma StepKeepsLocks(env: Env, s: System, t: nat)
    requires LocksOk(s) && t < |s.threads| && Next(env, s, t).Some?
    ensures LocksOk(Next(env, s, t).value)
  {
    hide Next, HoldsData, HoldsMetadata, PcFitsOp;
    StepMovesLocks(env, s, t);
  }

  /** Data-only operations do not look at the metadata map, and listing does not look
      at the data map. */
  lemma AnswerReadsItsMap(codec: Codec, op: Op, store: Store)
    requires !LocksBoth(op)
    ensures op.ListCredentials? ==> Answer(codec, op, Store(map[], store.metadata)) == Answer(codec, op, store)
    ensures !op.ListCredentials? ==> Answer(codec, op, Store(store.data, map[])) == Answer(codec, op, store)
    ensures WriteMetadata(op, store.metadata) == store.metadata
    ensures op.ListCredentials? ==> WriteData(codec, op, store.data) == store.data
  {
  }

  /** A step is either invisible, or it is the one step at which the whole operation
      takes effect on the vault, with the answer the vault gives at that moment. */
  lemma StepRefines(env: Env, s: System, t: nat, v: Vault)
    requires env.codec.Lawful() && LocksOk(s) && Shows(env, s, v) && Apart(s)
    requires t < |s.threads| && Next(env, s, t).Some?
    ensures var s' := Next(env, s, t).value;
            if s'.threads[t].pc.Committed?
            then Apply(s.threads[t].op, v, env.capacity).1 == s'.threads[t].pc.reply
                 && Shows(env, s', Apply(s.threads[t].op, v, env.capacity).0)
            else Shows(env, s', v)
  {
    if Next(env, s, t).value.threads[t].pc.Committed? {
      CommitRefines(env, s, t, v);
    } else {
      SilentStep(env, s, t, v);
    }
  }

  lemma SilentStep(env: Env, s: System, t: nat, v: Vault)
    requires LocksOk(s) && Shows(env, s, v)
    requires t < |s.threads| && Next(env, s, t).Some?
    requires !Next(env, s, t).value.threads[t].pc.Committed?
    ensures Shows(env, Next(env, s, t).value, v)
  {
    hide Consistent, VaultOf, Answer, WriteMetadata;
    assert s.threads[t].pc.WithBoth? || s.threads[t].pc.Ready? || s.threads[t].pc.WithData?
           || s.threads[t].pc.Committed? || s.threads[t].pc.MetadataReleased?;
  }

  lemma CommitRefines(env: Env, s: System, t: nat, v: Vault)
    requires env.codec.Lawful() && LocksOk(s) && Shows(env, s, v) && Apart(s)
    requires t < |s.threads| && Next(env, s, t).Some?
    requires Next(env, s, t).value.threads[t].pc.Committed?
    ensures var s' := Next(env, s, t).value;
            && Apply(s.threads[t].op, v, env.capacity).1 == s'.threads[t].pc.reply
            && Shows(env, s', Apply(s.threads[t].op, v, env.capacity).0)
  {
    hide Consistent, VaultOf, Apply, Answer, Codec.Lawful, WriteData, WriteMetadata;
    WholeStep(env, s.threads[t].op, Settled(s), v);
    CommitReaches(env, s, t);
  }

  /** The state in which a committing step leaves the settled maps. */
  lemma CommitReaches(env: Env, s: System, t: nat)
    requires LocksOk(s) && t < |s.threads| && Next(env, s, t).Some?
    requires Next(env, s, t).value.threads[t].pc.Committed?
    requires InMid(s) ==>
               var th := s.threads[s.dataLock.value];
               !Refuses(th.op, s.metadata, env.capacity) && s.data == WriteData(env.codec, th.op, th.pc.before)
    ensures var s' := Next(env, s, t).value;
            var (after, reply) := Exec(env.codec, s.threads[t].op, Settled(s), env.capacity);
            && Settled(s') == after && s'.threads[t].pc.reply == reply && !InMid(s')
  {
    hide Answer, WriteData, WriteMetadata;
    var op := s.threads[t].op;
    if !LocksBoth(op) {
      AnswerReadsItsMap(env.codec, op, Settled(s));
    }
  }

  /** The whole operation on settled maps, in the terms of `Shows`. */
  lemma WholeStep(env: Env, op: Op, store: Store, v: Vault)
    requires env.codec.Lawful() && Consistent(env.codec, store) && KeepsApart(op)
    requires VaultOf(env.codec, store) == v && |store.metadata| <= env.capacity
    ensures var (after, reply) := Exec(env.codec, op, store, env.capacity);
            && Consistent(env.codec, after)
            && |after.metadata| <= env.capacity
            && (VaultOf(env.codec, after), reply) == Apply(op, v, env.capacity)
  {
    ExecKeeps(env.codec, op, store, env.capacity);
  }

  // ----- Runs -----

  /** The state after the scheduler has picked the threads in `schedule`; picking a
      blocked or finished thread changes nothing. */
  function Run(env: Env, s: System, schedule: seq<nat>): System {
    if schedule == [] then s
    else
      var before := Run(env, s, schedule[..|schedule| - 1]);
      var t := schedule[|schedule| - 1];
      if t < |before.threads| && Next(env, before, t).Some? then Next(env, before, t).value else before
  }

  /** An operation taking effect: who, what, and with which answer. */
  datatype Event = Event(thread: nat, op: Op, reply: Reply)

  /** The event of a step, when the step is the one that takes effect. */
  function EventOf(env: Env, s: System, t: nat): seq<Event>
    requires t < |s.threads| && Next(env, s, t).Some?
  {
    var th := Next(env, s, t).value.threads[t];
    if th.pc.Committed? then [Event(t, th.op, th.pc.reply)] else []
  }

  /** The events of a run, in the order in which they happen. */
  function Log(env: Env, s: System, schedule: seq<nat>): seq<Event> {
    if schedule == [] then []
    else
      var before := Run(env, s, schedule[..|schedule| - 1]);
      var t := schedule[|schedule| - 1];
      Log(env, s, schedule[..|schedule| - 1])
      + if t < |before.threads| && Next(env, before, t).Some? then EventOf(env, before, t) else []
  }

  /** The vault after the operations of `log`, run whole and one after another. */
  function Replay(capacity: nat, v: Vault, log: seq<Event>): Vault {
    if log == [] then v
    else Apply(log[|log| - 1].op, Replay(capacity, v, log[..|log| - 1]), capacity).0
  }

  /** Every answer in `log` is the one a vault gives that runs the operations whole. */
  predicate Legal(capacity: nat, v: Vault, log: seq<Event>) {
    log == []
    || (&& Legal(capacity, v, log[..|log| - 1])
        && log[|log| - 1].reply
           == Apply(log[|log| - 1].op, Replay(capacity, v, log[..|log| - 1]), capacity).1)
  }

  ghost predicate Initial(env: Env, s: System, v: Vault) {
    && env.codec.Lawful()
    && s.dataLock == None && s.metadataLock == None
    && (forall t :: 0 <= t < |s.threads| ==> s.threads[t].pc == Ready)
    && Apart(s)
    && Shows(env, s, v)
  }

  /** `log` holds the answered threads, each once, with their operation and answer. */
  ghost predicate Records(s: System, log: seq<Event>) {
    && (forall i :: 0 <= i < |log| ==>
                      && log[i].thread < |s.threads|
                      && s.threads[log[i].thread].op == log[i].op
                      && s.threads[log[i].thread].pc.Replied()
                      && s.threads[log[i].thread].pc.reply == log[i].reply)
    && (forall t :: 0 <= t < |s.threads| && s.threads[t].pc.Replied() ==>
                      exists i :: 0 <= i < |log| && log[i].thread == t)
    && (forall i, j :: 0 <= i < j < |log| ==> log[i].thread != log[j].thread)
  }

  ghost predicate SameOps(s0: System, s: System) {
    && |s.threads| == |s0.threads|
    && forall t :: 0 <= t < |s.threads| ==> s.threads[t].op == s0.threads[t].op
  }

  /** Linearizability: in every interleaving of any number of threads, every answer is
      the one that running the operations whole, in the order of their events, gives;
      and the maps stand for the vault that this sequential run leads to. */
  lemma {:induction false} EveryRunIsLinearizable(env: Env, s0: System, v0: Vault, schedule: seq<nat>)
    requires Initial(env, s0, v0)
    ensures var s, log := Run(env, s0, schedule), Log(env, s0, schedule);
            && LocksOk(s) && SameOps(s0, s) && Apart(s)
            && Records(s, log)
            && Legal(env.capacity, v0, log)
            && Shows(env, s, Replay(env.capacity, v0, log))
  {
    hide Next, Apply, Shows, LocksOk, HoldsData, HoldsMetadata, PcFitsOp, Records;
    if schedule == [] {
      EmptyLog(env, s0, v0);
    } else {
      var shorter := schedule[..|schedule| - 1];
      var t := schedule[|schedule| - 1];
      EveryRunIsLinearizable(env, s0, v0, shorter);
      var s, log := Run(env, s0, shorter), Log(env, s0, shorter);
      if t < |s.threads| && Next(env, s, t).Some? {
        StepKeepsLocks(env, s, t);
        StepFacts(env, s, t);
        StepRefines(env, s, t, Replay(env.capacity, v0, log));
        StepRecords(env, s, t, log);
        assert (log + EventOf(env, s, t))[..|log|] == log;
      }
      assert log + [] == log;
    }
  }

  lemma EmptyLog(env: Env, s: System, v: Vault)
    requires Initial(env, s, v)
    ensures LocksOk(s) && Records(s, [])
  {
  }

  lemma StepFacts(env: Env, s: System, t: nat)
    requires t < |s.threads| && Next(env, s, t).Some?
    ensures var s' := Next(env, s, t).value;
            && |s'.threads| == |s.threads|
            && s'.threads[t].op == s.threads[t].op
            && (forall u :: 0 <= u < |s.threads| && u != t ==> s'.threads[u] == s.threads[u])
            && (s'.threads[t].pc.Committed? ==> !s.threads[t].pc.Replied())
            && (!s'.threads[t].pc.Committed? ==> (s'.threads[t].pc.Replied() <==> s.threads[t].pc.Replied()))
            && (s.threads[t].pc.Replied() ==> s'.threads[t].pc.reply == s.threads[t].pc.reply)
  {
    hide Answer, WriteData, WriteMetadata, Refuses;
  }

  lemma StepRecords(env: Env, s: System, t: nat, log: seq<Event>)
    requires Records(s, log)
    requires t < |s.threads| && Next(env, s, t).Some?
    ensures Records(Next(env, s, t).value, log + EventOf(env, s, t))
  {
    hide Next;
    StepFacts(env, s, t);
    var s', log' := Next(env, s, t).value, log + EventOf(env, s, t);
    forall u | 0 <= u < |s'.threads| && s'.threads[u].pc.Replied()
      ensures exists i :: 0 <= i < |log'| && log'[i].thread == u
    {
      if u == t && s'.threads[t].pc.Committed? {
        assert log'[|log|].thread == u;
      } else {
        var i :| 0 <= i < |log| && log[i].thread == u;
        assert log'[i].thread == u;
      }
    }
  }

  // ----- Real-time order -----

  lemma {:induction false} LogGrows(env: Env, s0: System, earlier: seq<nat>, later: seq<nat>)
    ensures Log(env, s0, earlier) <= Log(env, s0, earlier + later)
  {
    if later == [] {
      assert earlier + later == earlier;
    } else {
      var shorter := later[..|later| - 1];
      LogGrows(env, s0, earlier, shorter);
      assert (earlier + later)[..|earlier + later| - 1] == earlier + shorter;
    }
  }

  /** An operation that had returned before another one started precedes it in the log. */
  lemma LogRespectsRealTime(env: Env, s0: System, v0: Vault, earlier: seq<nat>, later: seq<nat>, i: nat, j: nat)
    requires Initial(env, s0, v0)
    requires var s, log := Run(env, s0, earlier), Log(env, s0, earlier + later);
             && i < |log| && j < |log|
             && log[i].thread < |s.threads| && s.threads[log[i].thread].pc.Finished?
             && log[j].thread < |s.threads| && s.threads[log[j].thread].pc.Ready?
    ensures i < j
  {
    hide Initial, Next, Apply, Shows, LocksOk, Run, Log, Legal;
    EveryRunIsLinearizable(env, s0, v0, earlier);
    EveryRunIsLinearizable(env, s0, v0, earlier + later);
    LogGrows(env, s0, earlier, later);
    AnsweredComesFirst(Run(env, s0, earlier), Log(env, s0, earlier), Log(env, s0, earlier + later), i, j);
  }

  lemma AnsweredComesFirst(s: System, short: seq<Event>, long: seq<Event>, i: nat, j: nat)
    requires Records(s, short) && short <= long
    requires forall k, m :: 0 <= k < m < |long| ==> long[k].thread != long[m].thread
    requires i < |long| && long[i].thread < |s.threads| && s.threads[long[i].thread].pc.Finished?
    requires j < |long| && long[j].thread < |s.threads| && s.threads[long[j].thread].pc.Ready?
    ensures i < j
  {
    var k :| 0 <= k < |short| && short[k].thread == long[i].thread;
    assert long[k] == short[k];
    assert i == k;
    assert forall m :: 0 <= m < |short| ==> long[m].thread == short[m].thread;
  }

  // ----- Between operations -----

  /** Whenever neither mutex is held, the two maps are consistent, within the capacity,
      and stand for the vault the log leads to: the ids with metadata are exactly the
      ids with a credential entry. */
  lemma QuietStoreIsConsistent(env: Env, s0: System, v0: Vault, schedule: seq<nat>)
    requires Initial(env, s0, v0)
    requires Run(env, s0, schedule).dataLock == None && Run(env, s0, schedule).metadataLock == None
    ensures var s := Run(env, s0, schedule);
            && Consistent(env.codec, Store(s.data, s.metadata))
            && VaultOf(env.codec, Store(s.data, s.metadata)) == Replay(env.capacity, v0, Log(env, s0, schedule))
            && |s.metadata| <= env.capacity
    ensures var s := Run(env, s0, schedule);
            forall id :: id in s.metadata <==> CredEntry(id) in s.data
  {
    hide Next, Apply, LocksOk, Consistent, VaultOf;
    EveryRunIsLinearizable(env, s0, v0, schedule);
    var s := Run(env, s0, schedule);
    assert Settled(s) == Store(s.data, s.metadata);
    EntriesMatchMetadata(env.codec, Store(s.data, s.metadata));
  }

  lemma EntriesMatchMetadata(codec: Codec, store: Store)
    requires Consistent(codec, store)
    ensures forall id :: id in store.metadata <==> CredEntry(id) in store.data
  {
    forall id | CredEntry(id) in store.data ensures id in store.metadata {
      assert CredEntry(id).CredEntry?;
    }
  }

  // ----- Progress -----

  predicate AllFinished(s: System) {
    forall t :: 0 <= t < |s.threads| ==> s.threads[t].pc.Finished?
  }

  /** No deadlock: while some operation is unfinished, some thread can move. A thread
      waits for the metadata mutex only while it holds the data mutex, and whoever holds
      the metadata mutex never waits. */
  lemma NoDeadlock(env: Env, s: System)
    requires LocksOk(s) && !AllFinished(s)
    ensures exists t :: 0 <= t < |s.threads| && Next(env, s, t).Some?
  {
    var t :| 0 <= t < |s.threads| && !s.threads[t].pc.Finished?;
    if s.metadataLock.Some? {
      assert Next(env, s, s.metadataLock.value).Some?;
    } else if s.dataLock.Some? {
      assert Next(env, s, s.dataLock.value).Some?;
    } else {
      assert Next(env, s, t).Some?;
    }
  }

  /** Steps a thread still has to take, at most. */
  function StepsLeft(pc: Pc): nat {
    match pc
    case Ready => 6
    case WithData => 5
    case WithMetadata => 3
    case WithBoth => 4
    case Mid(_) => 3
    case Committed(_) => 2
    case MetadataReleased(_) => 1
    case Finished(_) => 0
  }

  function Work(threads: seq<Thread>): nat {
    if threads == [] then 0 else StepsLeft(threads[0].pc) + Work(threads[1..])
  }

  lemma {:induction false} WorkDrops(threads: seq<Thread>, t: nat, th: Thread)
    requires t < |threads| && StepsLeft(th.pc) < StepsLeft(threads[t].pc)
    ensures Work(threads[t := th]) < Work(threads)
  {
    var after := threads[t := th];
    if t == 0 {
      assert after[1..] == threads[1..];
    } else {
      WorkDrops(threads[1..], t - 1, th);
      assert after[1..] == threads[1..][t - 1 := th];
    }
  }

  /** Every step uses up work, so no schedule moves threads forever. */
  lemma StepUsesWork(env: Env, s: System, t: nat)
    requires t < |s.threads| && Next(env, s, t).Some?
    ensures Work(Next(env, s, t).value.threads) < Work(s.threads)
  {
    hide Answer, WriteData, WriteMetadata, Refuses;
    var s' := Next(env, s, t).value;
    assert s'.threads == s.threads[t := s'.threads[t]];
    WorkDrops(s.threads, t, s'.threads[t]);
  }

  /** From every reachable state some schedule finishes all operations. */
  lemma {:induction false} AllCanFinish(env: Env, s: System) returns (schedule: seq<nat>)
    requires LocksOk(s)
    ensures AllFinished(Run(env, s, schedule))
    decreases Work(s.threads)
  {
    hide Next, LocksOk;
    if AllFinished(s) {
      schedule := [];
    } else {
      NoDeadlock(env, s);
      var t :| 0 <= t < |s.threads| && Next(env, s, t).Some?;
      StepKeepsLocks(env, s, t);
      StepUsesWork(env, s, t);
      var rest := AllCanFinish(env, Next(env, s, t).value);
      schedule := [t] + rest;
      RunFirst(env, s, t, rest);
    }
  }

  lemma {:induction false} RunFirst(env: Env, s: System, t: nat, rest: seq<nat>)
    requires t < |s.threads| && Next(env, s, t).Some?
    ensures Run(env, s, [t] + rest) == Run(env, Next(env, s, t).value, rest)
  {
    hide Next;
    if rest == [] {
      assert [t] + rest == [t] && [t][..0] == [];
      assert Run(env, s, []) == s;
    } else {
      RunFirst(env, s, t, rest[..|rest| - 1]);
      assert ([t] + rest)[..|[t] + rest| - 1] == [t] + rest[..|rest| - 1];
    }
  }

  // ----- Racing deletions -----

  predicate DeletesOrReads(op: Op, id: string) {
    op == DeleteCredential(id) || op.GetCredential? || op.ListCredentials? || op.GetBytes?
  }

  predicate NoDeletion(log: seq<Event>, id: string, i: nat)
    requires i <= |log|
  {
    forall k :: 0 <= k < i ==> log[k].op != DeleteCredential(id)
  }

  /** Replaying deletions of one present id: the first deletion answers true and all
      later ones false. */
  lemma {:induction false} FirstDeletionWins(capacity: nat, v: Vault, log: seq<Event>, id: string)
    requires id in v.creds && Legal(capacity, v, log)
    requires forall i :: 0 <= i < |log| ==> DeletesOrReads(log[i].op, id)
    ensures id in Replay(capacity, v, log).creds
            <==> NoDeletion(log, id, |log|)
    ensures forall i :: 0 <= i < |log| && log[i].op == DeleteCredential(id) ==>
              log[i].reply == Removed(NoDeletion(log, id, i))
  {
    hide Apply;
    if log != [] {
      var prefix, last := log[..|log| - 1], log[|log| - 1];
      FirstDeletionWins(capacity, v, prefix, id);
      DeletionOnVault(last.op, Replay(capacity, v, prefix), capacity, id);
      assert forall i :: 0 <= i < |prefix| ==> prefix[i] == log[i];
      forall i | 0 <= i < |prefix| ensures NoDeletion(log, id, i) == NoDeletion(prefix, id, i) {
      }
      assert NoDeletion(log, id, |prefix|) == NoDeletion(prefix, id, |prefix|);
      assert NoDeletion(log, id, |log|) <==> NoDeletion(log, id, |prefix|) && last.op != DeleteCredential(id);
    }
  }

  lemma DeletionOnVault(op: Op, v: Vault, capacity: nat, id: string)
    requires DeletesOrReads(op, id)
    ensures id in Apply(op, v, capacity).0.creds <==> id in v.creds && op != DeleteCredential(id)
    ensures op == DeleteCredential(id) ==> Apply(op, v, capacity).1 == Removed(id in v.creds)
  {
  }

  /** When threads race to delete one present credential and nothing else writes, every
      interleaving lets exactly one of them return true. */
  lemma ExactlyOneDeletionWins(env: Env, s0: System, v0: Vault, schedule: seq<nat>, id: string)
    requires Initial(env, s0, v0) && id in v0.creds
    requires forall t :: 0 <= t < |s0.threads| ==> DeletesOrReads(s0.threads[t].op, id)
    requires exists t :: 0 <= t < |s0.threads| && s0.threads[t].op == DeleteCredential(id)
    requires AllFinished(Run(env, s0, schedule))
    ensures OneWinner(Run(env, s0, schedule), id)
  {
    hide Initial, Next, Apply, Shows, LocksOk, Run, DeletesOrReads;
    EveryRunIsLinearizable(env, s0, v0, schedule);
    var s, log := Run(env, s0, schedule), Log(env, s0, schedule);
    assert forall i :: 0 <= i < |log| ==> DeletesOrReads(log[i].op, id);
    FirstDeletionWins(env.capacity, v0, log, id);
    WinnerInLog(s, log, id);
  }

  ghost predicate OneWinner(s: System, id: string) {
    exists w :: && 0 <= w < |s.threads|
                && s.threads[w] == Thread(DeleteCredential(id), Finished(Removed(true)))
                && forall t :: 0 <= t < |s.threads| && t != w && s.threads[t].op == DeleteCredential(id)
                               ==> s.threads[t].pc == Finished(Removed(false))
  }

  lemma WinnerInLog(s: System, log: seq<Event>, id: string)
    requires Records(s, log) && AllFinished(s)
    requires exists t :: 0 <= t < |s.threads| && s.threads[t].op == DeleteCredential(id)
    requires forall i :: 0 <= i < |log| && log[i].op == DeleteCredential(id) ==>
               log[i].reply == Removed(NoDeletion(log, id, i))
    ensures OneWinner(s, id)
  {
    var d :| 0 <= d < |s.threads| && s.threads[d].op == DeleteCredential(id);
    var k :| 0 <= k < |log| && log[k].thread == d;
    var first := FirstDeletion(log, id, k);
    var w := log[first].thread;
    assert s.threads[w] == Thread(DeleteCredential(id), Finished(Removed(true)));
    forall t | 0 <= t < |s.threads| && t != w && s.threads[t].op == DeleteCredential(id)
      ensures s.threads[t].pc == Finished(Removed(false))
    {
      var i :| 0 <= i < |log| && log[i].thread == t;
      assert log[first].op == DeleteCredential(id) && first < i;
    }
  }

  lemma {:induction false} FirstDeletion(log: seq<Event>, id: string, k: nat) returns (first: nat)
    requires k < |log| && log[k].op == DeleteCredential(id)
    ensures first <= k && log[first].op == DeleteCredential(id)
    ensures NoDeletion(log, id, first)
  {
    if i :| 0 <= i < k && log[i].op == DeleteCredential(id) {
      first := FirstDeletion(log, id, i);
    } else {
      first := k;
    }
  }
}
