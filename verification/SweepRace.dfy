/** `cleanup_expired` of `crates/core/src/storage.rs` as a thread among others: a sequence
    of store calls, each a sequence of lock steps, with other threads moving in between. */
module SweepRace {
  import opened Machine
  import opened WalletTypes
  import opened TextOrder
  import opened Storage
  import opened StoreInterleaving
  import Stores = MemoryStores

  /** What a thread does between calls: nothing, or the rest of a sweep. `rest` are the
      listed ids that were not read yet. */
  datatype Client =
    | OneCall
    | Sweep(now: u64, rest: seq<string>, removed: nat, result: Option<Result<nat, StorageError>>)

  datatype State = State(store: System, clients: seq<Client>)

  function IdsOf(list: seq<CredentialMetadata>): (ids: seq<string>)
    ensures |ids| == |list| && forall k :: 0 <= k < |ids| ==> ids[k] == list[k].id
  {
    seq(|list|, k requires 0 <= k < |list| => list[k].id)
  }

  /** The head of the loop: read the next listed id, or return the count. */
  function NextRow(c: Client): (Client, Option<Op>)
    requires c.Sweep?
  {
    if c.rest == [] then (c.(result := Some(Ok(c.removed))), None)
    else (c.(rest := c.rest[1..]), Some(GetCredential(c.rest[0])))
  }

  /** The sweep between two calls: from the answer of the last one to the next one. The
      answer of a deletion is not looked at. */
  function Resume(c: Client, op: Op, reply: Reply): (Client, Option<Op>)
    requires c.Sweep?
  {
    match (op, reply)
    case (ListCredentials, Listing(list)) => NextRow(c.(rest := IdsOf(list)))
    case (GetCredential(_), Failed(e)) => (c.(result := Some(Err(e))), None)
    case (GetCredential(id), Credential(Some(cred))) =>
      if cred.exp < c.now then (c, Some(DeleteCredential(id))) else NextRow(c)
    case (DeleteCredential(_), _) => NextRow(c.(removed := c.removed + 1))
    case _ => NextRow(c)
  }

  predicate Resumes(s: State, t: nat)
    requires t < |s.store.threads| == |s.clients|
  {
    s.store.threads[t].pc.Finished? && s.clients[t].Sweep? && s.clients[t].result.None?
  }

  /** Thread `t` moves: a lock step of its call, or the start of its next call. */
  function Step(env: Env, s: State, t: nat): State {
    if t >= |s.store.threads| || |s.clients| != |s.store.threads| then s
    else if Resumes(s, t) then
      var (c, next) := Resume(s.clients[t], s.store.threads[t].op, s.store.threads[t].pc.reply);
      match next
      case None => s.(clients := s.clients[t := c])
      case Some(op) =>
        State(s.store.(threads := s.store.threads[t := Thread(op, Ready)]), s.clients[t := c])
    else if Next(env, s.store, t).Some? then s.(store := Next(env, s.store, t).value)
    else s
  }

  function RunAll(env: Env, s: State, schedule: seq<nat>): State {
    if schedule == [] then s
    else Step(env, RunAll(env, s, schedule[..|schedule| - 1]), schedule[|schedule| - 1])
  }

  /** The event of a step, when a call takes effect in it. */
  function Effect(env: Env, s: State, t: nat): seq<Event> {
    if t < |s.store.threads| && Next(env, s.store, t).Some? then EventOf(env, s.store, t) else []
  }

  function Events(env: Env, s: State, schedule: seq<nat>): seq<Event> {
    if schedule == [] then []
    else
      var shorter := schedule[..|schedule| - 1];
      Events(env, s, shorter) + Effect(env, RunAll(env, s, shorter), schedule[|schedule| - 1])
  }

  /** Every sweep is about to list; the other threads are about to make their call. */
  ghost predicate Start(env: Env, s: State, v: Vault) {
    && Initial(env, s.store, v)
    && |s.clients| == |s.store.threads|
    && forall t :: 0 <= t < |s.clients| && s.clients[t].Sweep? ==>
                     && s.store.threads[t].op == ListCredentials
                     && s.clients[t].rest == [] && s.clients[t].removed == 0 && s.clients[t].result == None
  }

  // ----- The events of one thread -----

  /** `g` is the last event of thread `t`. */
  predicate LastOwn(log: seq<Event>, g: nat, t: nat) {
    g < |log| && log[g].thread == t && forall m :: g < m < |log| ==> log[m].thread != t
  }

  /** The event reads credential `id` as expired. */
  predicate ReadsExpired(e: Event, id: string, now: u64) {
    e.op == GetCredential(id) && e.reply.Credential? && e.reply.cred.Some? && e.reply.cred.value.exp < now
  }

  /** Number of deletions by thread `t`. */
  function Deletions(log: seq<Event>, t: nat): nat {
    if log == [] then 0
    else Deletions(log[..|log| - 1], t)
         + if log[|log| - 1].thread == t && log[|log| - 1].op.DeleteCredential? then 1 else 0
  }

  /** What the log knows about the call in which thread `t` is. */
  ghost predicate CallOk(s: State, log: seq<Event>, t: nat)
    requires t < |s.store.threads| == |s.clients|
  {
    var th := s.store.threads[t];
    && (th.pc.Replied() ==> exists g: nat :: LastOwn(log, g, t) && log[g] == Event(t, th.op, th.pc.reply))
    && (s.clients[t].Sweep? ==>
          && (th.op.ListCredentials? || th.op.GetCredential? || th.op.DeleteCredential?)
          && (th.op.DeleteCredential? && !th.pc.Replied() ==>
                exists g: nat :: LastOwn(log, g, t) && ReadsExpired(log[g], th.op.id, s.clients[t].now)))
  }

  /** The deletions in the log are those counted, and the one that is not counted yet. */
  predicate CountOk(s: State, log: seq<Event>, t: nat)
    requires t < |s.store.threads| == |s.clients|
  {
    var (th, c) := (s.store.threads[t], s.clients[t]);
    c.Sweep? ==>
      && Deletions(log, t)
         == c.removed + (if th.op.DeleteCredential? && th.pc.Replied() && c.result.None? then 1 else 0)
      && (c.result.Some? ==> th.pc.Finished? && (c.result.value.Ok? ==> c.result.value.value == c.removed))
  }

  /** Thread `t` has called list. */
  ghost predicate HasListed(log: seq<Event>, t: nat) {
    exists l :: 0 <= l < |log| && log[l].thread == t && log[l].op.ListCredentials?
  }

  /** Thread `t` has called get for `id`. */
  ghost predicate Got(log: seq<Event>, t: nat, id: string) {
    exists g :: 0 <= g < |log| && log[g].thread == t && log[g].op == GetCredential(id)
  }

  /** Thread `t` has deleted `id` after event `g`. */
  ghost predicate DeletedAfter(log: seq<Event>, g: nat, t: nat, id: string) {
    exists d :: g < d < |log| && log[d].thread == t && log[d].op == DeleteCredential(id)
  }

  /** Every id of the sweep's listing was read, is being read, or is still to be read. */
  ghost predicate ListedOk(th: Thread, c: Client, log: seq<Event>, t: nat)
    requires c.Sweep?
  {
    forall l :: 0 <= l < |log| && log[l].thread == t && log[l].op.ListCredentials? ==>
                  if th.op.ListCredentials? && c.result.None? then th.pc.Replied() && log[l].reply == th.pc.reply
                  else log[l].reply.Listing? ==>
                         forall k :: 0 <= k < |log[l].reply.list| ==>
                                       var id := log[l].reply.list[k].id;
                                       || id in c.rest || Got(log, t, id)
                                       || (th.op == GetCredential(id) && !th.pc.Replied())
  }

  /** The sweep has just read `id` as expired, or is about to delete it. */
  predicate Pending(th: Thread, c: Client, id: string) {
    c.Sweep? && c.result.None? && ((th.op == GetCredential(id) && th.pc.Replied())
                                   || (th.op == DeleteCredential(id) && !th.pc.Replied()))
  }

  /** Every get that read an expired credential was followed by its deletion, unless it is
      the last event of the sweep and the deletion is to come. */
  ghost predicate FollowedOk(th: Thread, c: Client, log: seq<Event>, t: nat)
    requires c.Sweep?
  {
    forall g :: 0 <= g < |log| && log[g].thread == t && log[g].op.GetCredential?
                && ReadsExpired(log[g], log[g].op.id, c.now) ==>
                  DeletedAfter(log, g, t, log[g].op.id) || (LastOwn(log, g, t) && Pending(th, c, log[g].op.id))
  }

  /** How far the sweep of thread `t` has got with its listing. */
  ghost predicate CoverOk(s: State, log: seq<Event>, t: nat)
    requires t < |s.store.threads| == |s.clients|
  {
    var (th, c) := (s.store.threads[t], s.clients[t]);
    c.Sweep? ==>
      && ListedOk(th, c, log, t) && FollowedOk(th, c, log, t)
      && (!th.op.ListCredentials? || th.pc.Replied() ==> HasListed(log, t))
      && (c.result.Some? ==> th.pc.Finished? && (c.result.value.Ok? ==> c.rest == []))
  }

  /** Every deletion of a sweep has its own get before it, which read an expired credential. */
  ghost predicate DeletionOk(clients: seq<Client>, log: seq<Event>, d: nat)
    requires d < |log|
  {
    var (t, op) := (log[d].thread, log[d].op);
    t < |clients| && clients[t].Sweep? && op.DeleteCredential? ==>
      exists g: nat :: LastOwn(log[..d], g, t) && ReadsExpired(log[g], op.id, clients[t].now)
  }

  ghost predicate Inv(env: Env, s: State, v0: Vault, log: seq<Event>) {
    && |s.clients| == |s.store.threads|
    && LocksOk(s.store) && Apart(s.store)
    && Legal(env.capacity, v0, log)
    && Shows(env, s.store, Replay(env.capacity, v0, log))
    && (forall t :: 0 <= t < |s.clients| ==> CallOk(s, log, t) && CountOk(s, log, t) && CoverOk(s, log, t))
    && (forall d :: 0 <= d < |log| ==> DeletionOk(s.clients, log, d))
  }

  /** The same threads with the same sweeps, whatever they have done. */
  ghost predicate SameSweeps(s: State, s': State) {
    && |s'.clients| == |s.clients|
    && forall t :: 0 <= t < |s.clients| ==>
                     && s'.clients[t].Sweep? == s.clients[t].Sweep?
                     && (s.clients[t].Sweep? ==> s'.clients[t].now == s.clients[t].now)
  }

  // ----- Between calls -----

  lemma ResumeKeepsStore(env: Env, s: System, v: Vault, t: nat, op: Op)
    requires LocksOk(s) && Apart(s) && Shows(env, s, v)
    requires t < |s.threads| && s.threads[t].pc.Finished? && KeepsApart(op)
    ensures var s' := s.(threads := s.threads[t := Thread(op, Ready)]);
            LocksOk(s') && Apart(s') && Shows(env, s', v)
  {
    hide Consistent, VaultOf, Refuses, WriteData;
  }

  lemma ResumeKeepsCover(env: Env, s: State, log: seq<Event>, t: nat)
    requires t < |s.clients| == |s.store.threads| && Resumes(s, t) && CallOk(s, log, t) && CoverOk(s, log, t)
    ensures var s' := Step(env, s, t);
            |s'.store.threads| == |s.clients| && CoverOk(s', log, t)
  {
    hide Next, Got, DeletedAfter;
    var s' := Step(env, s, t);
    var (th, c, th', c') := (s.store.threads[t], s.clients[t], s'.store.threads[t], s'.clients[t]);
    assert ListedOk(th', c', log, t) by {
      ResumeKeepsListed(s, log, t, c', Resume(c, th.op, th.pc.reply).1);
    }
    assert FollowedOk(th', c', log, t);
  }

  lemma ResumeKeepsListed(s: State, log: seq<Event>, t: nat, c': Client, next: Option<Op>)
    requires t < |s.clients| == |s.store.threads| && Resumes(s, t) && CallOk(s, log, t) && CoverOk(s, log, t)
    requires (c', next) == Resume(s.clients[t], s.store.threads[t].op, s.store.threads[t].pc.reply)
    ensures ListedOk(if next.Some? then Thread(next.value, Ready) else s.store.threads[t], c', log, t)
  {
    var th, c := s.store.threads[t], s.clients[t];
    if th.op.GetCredential? {
      assert Got(log, t, th.op.id);
    }
  }

  lemma ResumeKeeps(env: Env, s: State, v0: Vault, log: seq<Event>, t: nat)
    requires Inv(env, s, v0, log) && t < |s.clients| && Resumes(s, t)
    ensures Inv(env, Step(env, s, t), v0, log) && SameSweeps(s, Step(env, s, t))
  {
    hide Shows, LocksOk, Legal, Replay, DeletionOk, Next;
    var s' := Step(env, s, t);
    var (c, next) := Resume(s.clients[t], s.store.threads[t].op, s.store.threads[t].pc.reply);
    if next.Some? {
      ResumeKeepsStore(env, s.store, Replay(env.capacity, v0, log), t, next.value);
    }
    assert CallOk(s, log, t) && CountOk(s, log, t);
    forall u | 0 <= u < |s'.clients| ensures CallOk(s', log, u) && CountOk(s', log, u) && CoverOk(s', log, u) {
      assert CallOk(s, log, u) && CountOk(s, log, u) && CoverOk(s, log, u);
      if u == t {
        ResumeKeepsCover(env, s, log, t);
      }
    }
    forall d | 0 <= d < |log| ensures DeletionOk(s'.clients, log, d) {
      SameDeletionOk(s.clients, s'.clients, log, d);
    }
  }

  lemma SameDeletionOk(clients: seq<Client>, clients': seq<Client>, log: seq<Event>, d: nat)
    requires d < |log| && DeletionOk(clients, log, d) && |clients'| == |clients|
    requires forall t :: 0 <= t < |clients| ==>
               && clients'[t].Sweep? == clients[t].Sweep?
               && (clients[t].Sweep? ==> clients'[t].now == clients[t].now)
    ensures DeletionOk(clients', log, d)
  {
  }

  // ----- Within a call -----

  lemma LockStepKeepsStore(env: Env, s: System, v0: Vault, log: seq<Event>, t: nat)
    requires env.codec.Lawful() && LocksOk(s) && Apart(s) && t < |s.threads| && Next(env, s, t).Some?
    requires Legal(env.capacity, v0, log) && Shows(env, s, Replay(env.capacity, v0, log))
    ensures var (s', log') := (Next(env, s, t).value, log + EventOf(env, s, t));
            && LocksOk(s') && Apart(s')
            && Legal(env.capacity, v0, log') && Shows(env, s', Replay(env.capacity, v0, log'))
  {
    hide Next, Apply, Shows, LocksOk;
    StepKeepsLocks(env, s, t);
    StepFacts(env, s, t);
    StepRefines(env, s, t, Replay(env.capacity, v0, log));
    assert (log + EventOf(env, s, t))[..|log|] == log;
    assert log + [] == log;
  }

  lemma LockStepKeepsCall(env: Env, s: State, log: seq<Event>, t: nat, u: nat)
    requires u < |s.clients| == |s.store.threads| && CallOk(s, log, u)
    requires t < |s.clients| && Next(env, s.store, t).Some?
    ensures var (s', log') := (s.(store := Next(env, s.store, t).value), log + EventOf(env, s.store, t));
            |s'.store.threads| == |s.clients| && CallOk(s', log', u)
  {
    hide Next;
    StepFacts(env, s.store, t);
    var s', log' := s.(store := Next(env, s.store, t).value), log + EventOf(env, s.store, t);
    if s'.store.threads[t].pc.Committed? && u == t {
      assert LastOwn(log', |log|, t);
    } else {
      forall g: nat | LastOwn(log, g, u) ensures LastOwn(log', g, u) && log'[g] == log[g] {
      }
    }
  }

  lemma LockStepKeepsCount(env: Env, s: State, log: seq<Event>, t: nat, u: nat)
    requires u < |s.clients| == |s.store.threads| && CountOk(s, log, u)
    requires t < |s.clients| && Next(env, s.store, t).Some? && !Resumes(s, t)
    ensures var (s', log') := (s.(store := Next(env, s.store, t).value), log + EventOf(env, s.store, t));
            |s'.store.threads| == |s.clients| && CountOk(s', log', u)
  {
    hide Next;
    StepFacts(env, s.store, t);
    if s.store.threads[t].pc.Finished? {
      FinishedStays(env, s.store, t);
    }
    var s', log' := s.(store := Next(env, s.store, t).value), log + EventOf(env, s.store, t);
    if s'.store.threads[t].pc.Committed? {
      assert log'[..|log'| - 1] == log;
    } else {
      assert log' == log;
    }
  }

  lemma LockStepKeepsCover(env: Env, s: State, log: seq<Event>, t: nat, u: nat)
    requires u < |s.clients| == |s.store.threads| && CallOk(s, log, u) && CoverOk(s, log, u)
    requires t < |s.clients| && Next(env, s.store, t).Some? && !Resumes(s, t)
    ensures var (s', log') := (s.(store := Next(env, s.store, t).value), log + EventOf(env, s.store, t));
            |s'.store.threads| == |s.clients| && CoverOk(s', log', u)
  {
    hide Next;
    StepFacts(env, s.store, t);
    if s.store.threads[t].pc.Finished? {
      FinishedStays(env, s.store, t);
    }
    var s', log' := s.(store := Next(env, s.store, t).value), log + EventOf(env, s.store, t);
    var (th, th', c) := (s.store.threads[u], s'.store.threads[u], s.clients[u]);
    assert log + [] == log;
    assert LogStep(th, th', log, log', u);
    ListingStays(th, th', log, log', u);
    hide HasListed;
    if c.Sweep? {
      if c.result.None? {
        FollowedGrows(th, th', c, log, log', u);
        ListedGrows(th, th', c, log, log', u);
      } else {
        OthersGrow(th, c, log, log', u);
      }
    }
  }

  /** A lock step seen from thread `u`: no event, an event of another thread, or its own. */
  predicate LogStep(th: Thread, th': Thread, log: seq<Event>, log': seq<Event>, u: nat) {
    && th'.op == th.op
    && (|| (log' == log && (th'.pc.Replied() <==> th.pc.Replied()) && (th.pc.Replied() ==> th'.pc.reply == th.pc.reply))
        || (|log'| == |log| + 1 && log'[..|log|] == log && log'[|log|].thread != u && th' == th)
        || (&& |log'| == |log| + 1 && log'[..|log|] == log && !th.pc.Replied() && th'.pc.Replied()
            && log'[|log|] == Event(u, th.op, th'.pc.reply)))
  }

  lemma ListingStays(th: Thread, th': Thread, log: seq<Event>, log': seq<Event>, u: nat)
    requires LogStep(th, th', log, log', u)
    ensures HasListed(log, u) ==> HasListed(log', u)
    ensures th.op.ListCredentials? && !th.pc.Replied() && th'.pc.Replied() ==> HasListed(log', u)
  {
    assert forall i :: 0 <= i < |log| ==> log'[i] == log[i];
    if log' != log && log'[|log|].thread == u && log'[|log|].op.ListCredentials? {
      assert HasListed(log', u);
    }
    if l :| 0 <= l < |log| && log[l].thread == u && log[l].op.ListCredentials? {
      assert log'[l].op.ListCredentials?;
    }
  }

  lemma FollowedGrows(th: Thread, th': Thread, c: Client, log: seq<Event>, log': seq<Event>, u: nat)
    requires c.Sweep? && c.result.None? && FollowedOk(th, c, log, u) && LogStep(th, th', log, log', u)
    ensures FollowedOk(th', c, log', u)
  {
    if log' != log {
      var n := |log|;
      assert forall i :: 0 <= i < n ==> log'[i] == log[i];
      forall g | 0 <= g < n && log[g].thread == u && log[g].op.GetCredential?
                 && ReadsExpired(log[g], log[g].op.id, c.now)
        ensures var id := log[g].op.id; DeletedAfter(log', g, u, id) || (LastOwn(log', g, u) && Pending(th', c, id))
      {
        var id := log[g].op.id;
        if d :| g < d < n && log[d].thread == u && log[d].op == DeleteCredential(id) {
          assert log'[d].op == DeleteCredential(id);
        } else if log'[n].thread == u {
          assert log'[n].op == DeleteCredential(id);
        }
      }
    }
  }

  /** A sweep that has returned has no more events. */
  lemma OthersGrow(th: Thread, c: Client, log: seq<Event>, log': seq<Event>, u: nat)
    requires c.Sweep? && c.result.Some? && ListedOk(th, c, log, u) && FollowedOk(th, c, log, u)
    requires log' == log || (|log'| == |log| + 1 && log'[..|log|] == log && log'[|log|].thread != u)
    ensures ListedOk(th, c, log', u) && FollowedOk(th, c, log', u)
  {
    assert forall i :: 0 <= i < |log| ==> log'[i] == log[i];
    forall id | Got(log, u, id) ensures Got(log', u, id) {
      var g :| 0 <= g < |log| && log[g].thread == u && log[g].op == GetCredential(id);
      assert log'[g].op == GetCredential(id);
    }
    forall g: nat, id | DeletedAfter(log, g, u, id) ensures DeletedAfter(log', g, u, id) {
      var d :| g < d < |log| && log[d].thread == u && log[d].op == DeleteCredential(id);
      assert log'[d].op == DeleteCredential(id);
    }
    hide Got, DeletedAfter;
  }

  lemma ListedGrows(th: Thread, th': Thread, c: Client, log: seq<Event>, log': seq<Event>, u: nat)
    requires c.Sweep? && c.result.None? && ListedOk(th, c, log, u) && LogStep(th, th', log, log', u)
    ensures ListedOk(th', c, log', u)
  {
    if log' != log {
      assert forall i :: 0 <= i < |log| ==> log'[i] == log[i];
      forall id | Got(log, u, id) ensures Got(log', u, id) {
        var g :| 0 <= g < |log| && log[g].thread == u && log[g].op == GetCredential(id);
        assert log'[g].op == GetCredential(id);
      }
      if log'[|log|].thread == u && th.op.GetCredential? {
        assert Got(log', u, th.op.id);
      }
      hide Got;
    }
  }

  lemma FinishedStays(env: Env, s: System, t: nat)
    requires t < |s.threads| && s.threads[t].pc.Finished?
    ensures Next(env, s, t).None?
  {
  }

  lemma LockStepKeepsDeletions(env: Env, s: State, log: seq<Event>, t: nat, d: nat)
    requires t < |s.clients| == |s.store.threads| && Next(env, s.store, t).Some? && CallOk(s, log, t)
    requires forall k :: 0 <= k < |log| ==> DeletionOk(s.clients, log, k)
    requires d < |log + EventOf(env, s.store, t)|
    ensures DeletionOk(s.clients, log + EventOf(env, s.store, t), d)
  {
    hide Next;
    StepFacts(env, s.store, t);
    var log' := log + EventOf(env, s.store, t);
    if d < |log| {
      assert DeletionOk(s.clients, log, d) && log'[..d] == log[..d];
    } else {
      assert log'[..d] == log;
    }
  }

  lemma LockStepKeeps(env: Env, s: State, v0: Vault, log: seq<Event>, t: nat)
    requires env.codec.Lawful() && Inv(env, s, v0, log)
    requires t < |s.clients| && Next(env, s.store, t).Some? && !Resumes(s, t)
    ensures Inv(env, Step(env, s, t), v0, log + EventOf(env, s.store, t)) && SameSweeps(s, Step(env, s, t))
  {
    hide Next, Shows, LocksOk, Legal, Replay, DeletionOk, CallOk, CountOk, EventOf;
    LockStepKeepsStore(env, s.store, v0, log, t);
    StepFacts(env, s.store, t);
    var s', log' := s.(store := Next(env, s.store, t).value), log + EventOf(env, s.store, t);
    assert Step(env, s, t) == s';
    forall u | 0 <= u < |s.clients|
      ensures |s'.store.threads| == |s.clients|
      ensures CallOk(s', log', u) && CountOk(s', log', u) && CoverOk(s', log', u)
    {
      assert CallOk(s, log, u) && CountOk(s, log, u) && CoverOk(s, log, u);
      LockStepKeepsCover(env, s, log, t, u);
      LockStepKeepsCall(env, s, log, t, u);
      LockStepKeepsCount(env, s, log, t, u);
    }
    forall d | 0 <= d < |log'| ensures DeletionOk(s'.clients, log', d) {
      LockStepKeepsDeletions(env, s, log, t, d);
    }
  }

  lemma {:induction false} RunAllKeeps(env: Env, s0: State, v0: Vault, schedule: seq<nat>)
    requires Start(env, s0, v0)
    ensures Inv(env, RunAll(env, s0, schedule), v0, Events(env, s0, schedule))
    ensures SameSweeps(s0, RunAll(env, s0, schedule))
  {
    hide Inv, Step, Next, EventOf;
    if schedule == [] {
      StartKeeps(env, s0, v0);
    } else {
      var shorter, t := schedule[..|schedule| - 1], schedule[|schedule| - 1];
      RunAllKeeps(env, s0, v0, shorter);
      var s, log := RunAll(env, s0, shorter), Events(env, s0, shorter);
      StepKeepsInv(env, s, v0, log, t);
    }
  }

  lemma StepKeepsInv(env: Env, s: State, v0: Vault, log: seq<Event>, t: nat)
    requires env.codec.Lawful() && Inv(env, s, v0, log)
    ensures Inv(env, Step(env, s, t), v0, log + Effect(env, s, t)) && SameSweeps(s, Step(env, s, t))
  {
    assert |s.clients| == |s.store.threads|;
    hide Inv, EventOf, Next, Resume;
    assert log + [] == log;
    if t < |s.clients| {
      if Resumes(s, t) {
        ResumeKeeps(env, s, v0, log, t);
      } else if Next(env, s.store, t).Some? {
        LockStepKeeps(env, s, v0, log, t);
      }
    }
  }

  lemma StartKeeps(env: Env, s0: State, v0: Vault)
    requires Start(env, s0, v0)
    ensures Inv(env, s0, v0, []) && SameSweeps(s0, s0)
  {
    hide Shows;
  }

  // ----- What became of a credential since it was read -----

  /** A credential for the id that is not expired at `now` is filed, or the id is absent. */
  datatype Fate = Fresh | Gone

  predicate HasFate(fate: Fate, v: Vault, id: string, now: u64) {
    match fate
    case Fresh => id in v.creds && v.creds[id].cred.exp >= now
    case Gone => id !in v.creds
  }

  /** The event replaces or removes what is filed under `id`. */
  predicate Touches(e: Event, id: string) {
    match e.op
    case PutCredential(_, meta) => meta.id == id && e.reply == Done
    case DeleteCredential(other) => other == id
    case ClearAll => true
    case _ => false
  }

  /** The event brings the fate about: a renewal files a credential that is not expired, a
      removal deletes or clears. */
  predicate Causes(e: Event, fate: Fate, id: string, now: u64) {
    Touches(e, id) && (fate.Fresh? <==> e.op.PutCredential?) && (fate.Fresh? ==> e.op.cred.exp >= now)
  }

  /** Event `k` caused the fate and no later one touched `id`. */
  predicate CausedAt(log: seq<Event>, k: nat, fate: Fate, id: string, now: u64) {
    k < |log| && Causes(log[k], fate, id, now) && forall m :: k < m < |log| ==> !Touches(log[m], id)
  }

  /** The last event after `g` that touched `id` caused the fate. */
  ghost predicate LastTouch(log: seq<Event>, g: nat, fate: Fate, id: string, now: u64) {
    exists k :: g < k && CausedAt(log, k, fate, id, now)
  }

  lemma EventEffect(op: Op, v: Vault, capacity: nat, e: Event, fate: Fate, id: string, now: u64)
    requires e.op == op && e.reply == Apply(op, v, capacity).1
    ensures HasFate(fate, Apply(op, v, capacity).0, id, now)
            <==> Causes(e, fate, id, now) || (!Touches(e, id) && HasFate(fate, v, id, now))
  {
  }

  lemma CausedAtStep(log: seq<Event>, k: nat, fate: Fate, id: string, now: u64)
    requires log != []
    ensures var n := |log| - 1;
            CausedAt(log, k, fate, id, now)
            <==> if k == n then Causes(log[n], fate, id, now)
                 else !Touches(log[n], id) && CausedAt(log[..n], k, fate, id, now)
    ensures CausedAt(log[..|log| - 1], k, fate, id, now) ==> k < |log| - 1
  {
    hide Causes, Touches;
    var n := |log| - 1;
    assert forall m :: 0 <= m < n ==> log[..n][m] == log[m];
  }

  lemma LastTouchStep(log: seq<Event>, g: nat, fate: Fate, id: string, now: u64)
    requires g + 1 < |log|
    ensures var last := log[|log| - 1];
            LastTouch(log, g, fate, id, now)
            <==> Causes(last, fate, id, now) || (!Touches(last, id) && LastTouch(log[..|log| - 1], g, fate, id, now))
  {
    hide Causes, Touches, CausedAt;
    var n := |log| - 1;
    CausedAtStep(log, n, fate, id, now);
    if k: nat :| g < k && CausedAt(log, k, fate, id, now) {
      CausedAtStep(log, k, fate, id, now);
    }
    if k: nat :| g < k && CausedAt(log[..n], k, fate, id, now) {
      CausedAtStep(log, k, fate, id, now);
    }
  }

  /** After a get that read an expired credential, its id has a fate exactly when the last
      event that touched it caused that fate. */
  lemma {:induction false} FateIsLastTouch(capacity: nat, v: Vault, log: seq<Event>, g: nat, fate: Fate, id: string,
                                           now: u64)
    requires Legal(capacity, v, log) && g < |log| && ReadsExpired(log[g], id, now)
    ensures HasFate(fate, Replay(capacity, v, log), id, now) <==> LastTouch(log, g, fate, id, now)
  {
    hide Apply, Causes, Touches, HasFate, LastTouch, ReadsExpired;
    var prefix, last := log[..|log| - 1], log[|log| - 1];
    var before := Replay(capacity, v, prefix);
    if g == |log| - 1 {
      JustRead(capacity, before, log, g, fate, id, now);
    } else {
      FateIsLastTouch(capacity, v, prefix, g, fate, id, now);
      EventEffect(last.op, before, capacity, last, fate, id, now);
      LastTouchStep(log, g, fate, id, now);
    }
  }

  lemma JustRead(capacity: nat, v: Vault, log: seq<Event>, g: nat, fate: Fate, id: string, now: u64)
    requires g + 1 == |log| && ReadsExpired(log[g], id, now) && log[g].reply == Apply(log[g].op, v, capacity).1
    ensures !HasFate(fate, Apply(log[g].op, v, capacity).0, id, now) && !LastTouch(log, g, fate, id, now)
  {
  }

  lemma {:induction false} LegalAt(capacity: nat, v: Vault, log: seq<Event>, d: nat)
    requires Legal(capacity, v, log) && d < |log|
    ensures Legal(capacity, v, log[..d])
    ensures log[d].reply == Apply(log[d].op, Replay(capacity, v, log[..d]), capacity).1
  {
    hide Apply;
    var n := |log| - 1;
    if d < n {
      LegalAt(capacity, v, log[..n], d);
      assert log[..n][..d] == log[..d];
    }
  }

  // ----- What a racing sweep deletes and counts -----

  /** The deletion at `d`, with the own get at `g` that it goes back to. */
  ghost predicate DeletesWhatItRead(capacity: nat, v0: Vault, log: seq<Event>, g: nat, d: nat, now: u64)
    requires d < |log| && log[d].op.DeleteCredential?
  {
    var (id, before) := (log[d].op.id, Replay(capacity, v0, log[..d]));
    && LastOwn(log[..d], g, log[d].thread) && ReadsExpired(log[g], id, now)
    && (HasFate(Fresh, before, id, now) <==> LastTouch(log[..d], g, Fresh, id, now))
    && (log[d].reply == Removed(false) <==> LastTouch(log[..d], g, Gone, id, now))
  }

  /** In every run of any threads, each deletion of a sweep goes back to the sweep's own
      last call, a get that read that id as expired. It takes away a credential that is not
      expired exactly when the last call that touched the id since that get renewed it, and
      it finds nothing exactly when that call removed it. */
  lemma SweepDeletesRenewedExactlyWhen(env: Env, s0: State, v0: Vault, schedule: seq<nat>, d: nat)
    requires Start(env, s0, v0)
    requires var log := Events(env, s0, schedule);
             && d < |log| && log[d].op.DeleteCredential?
             && log[d].thread < |s0.clients| && s0.clients[log[d].thread].Sweep?
    ensures var log := Events(env, s0, schedule);
            exists g: nat :: DeletesWhatItRead(env.capacity, v0, log, g, d, s0.clients[log[d].thread].now)
  {
    hide RunAll, Events, Start, Shows, LocksOk, Legal, Replay, CallOk, CountOk;
    RunAllKeeps(env, s0, v0, schedule);
    var s, log := RunAll(env, s0, schedule), Events(env, s0, schedule);
    assert DeletionOk(s.clients, log, d);
    var (id, now) := (log[d].op.id, s0.clients[log[d].thread].now);
    var g: nat :| LastOwn(log[..d], g, log[d].thread) && ReadsExpired(log[g], id, now);
    LegalAt(env.capacity, v0, log, d);
    FateIsLastTouch(env.capacity, v0, log[..d], g, Fresh, id, now);
    FateIsLastTouch(env.capacity, v0, log[..d], g, Gone, id, now);
    assert DeletesWhatItRead(env.capacity, v0, log, g, d, now);
  }

  /** Number of deletions by thread `t` that found something. */
  function TrueDeletions(log: seq<Event>, t: nat): nat {
    if log == [] then 0
    else TrueDeletions(log[..|log| - 1], t)
         + if log[|log| - 1].thread == t && log[|log| - 1].op.DeleteCredential? && log[|log| - 1].reply == Removed(true)
           then 1 else 0
  }

  lemma {:induction false} TrueDeletionsAtMost(log: seq<Event>, t: nat)
    ensures TrueDeletions(log, t) <= Deletions(log, t)
    ensures TrueDeletions(log, t) == Deletions(log, t)
            <==> forall d :: 0 <= d < |log| && log[d].thread == t && log[d].op.DeleteCredential? ==>
                               log[d].reply == Removed(true)
  {
    if log != [] {
      var n := |log| - 1;
      TrueDeletionsAtMost(log[..n], t);
      assert forall d :: 0 <= d < n ==> log[..n][d] == log[d];
    }
  }

  /** The count that a sweep returns is the number of deletions it issued. It is at least
      the number of credentials it removed, and equal exactly when no deletion of the sweep
      came after somebody else's removal. */
  lemma SweepCountsDeletions(env: Env, s0: State, v0: Vault, schedule: seq<nat>, t: nat)
    requires Start(env, s0, v0) && t < |s0.clients| && s0.clients[t].Sweep?
    requires var s := RunAll(env, s0, schedule);
             t < |s.clients| && s.clients[t].Sweep? && s.clients[t].result.Some? && s.clients[t].result.value.Ok?
    ensures var (s, log) := (RunAll(env, s0, schedule), Events(env, s0, schedule));
            var count := s.clients[t].result.value.value;
            && count == Deletions(log, t)
            && TrueDeletions(log, t) <= count
            && (TrueDeletions(log, t) == count
                <==> forall d :: 0 <= d < |log| && log[d].thread == t && log[d].op.DeleteCredential?
                                 ==> log[d].reply == Removed(true))
  {
    hide RunAll, Events, Start, Shows, LocksOk, Legal, Replay, CallOk, DeletionOk;
    RunAllKeeps(env, s0, v0, schedule);
    var s, log := RunAll(env, s0, schedule), Events(env, s0, schedule);
    assert CountOk(s, log, t);
    TrueDeletionsAtMost(log, t);
  }

  // ----- What a racing sweep gets through -----

  predicate WellFiled(v: Vault) {
    forall id :: id in v.creds ==> v.creds[id].meta.id == id
  }

  lemma {:induction false} ReplayKeepsWellFiled(capacity: nat, v: Vault, log: seq<Event>)
    requires WellFiled(v)
    ensures WellFiled(Replay(capacity, v, log))
  {
    if log != [] {
      ReplayKeepsWellFiled(capacity, v, log[..|log| - 1]);
    }
  }

  lemma ShownIsWellFiled(env: Env, s: System, v: Vault)
    requires Shows(env, s, v)
    ensures WellFiled(v)
  {
  }

  /** Once a sweep has returned, it has listed the store at some moment, has read every
      credential that was there at that moment, and has deleted each one that it read as
      expired after reading it. */
  lemma SweepCoversListing(env: Env, s0: State, v0: Vault, schedule: seq<nat>, t: nat) returns (l: nat)
    requires Start(env, s0, v0) && t < |s0.clients| && s0.clients[t].Sweep?
    requires var s := RunAll(env, s0, schedule);
             t < |s.clients| && s.clients[t].Sweep? && s.clients[t].result.Some? && s.clients[t].result.value.Ok?
    ensures var log := Events(env, s0, schedule);
            && l < |log| && log[l].thread == t && log[l].op == ListCredentials
            && log[l].reply == Listing(ListOf(MetadataOf(Replay(env.capacity, v0, log[..l]))))
            && forall id :: id in Replay(env.capacity, v0, log[..l]).creds ==> Got(log, t, id)
    ensures Followed(Events(env, s0, schedule), t, s0.clients[t].now)
  {
    hide RunAll, Events, Shows, LocksOk, Legal, Replay, CallOk, CountOk, DeletionOk, Got, ListOf, Followed, FollowedOk;
    RunAllKeeps(env, s0, v0, schedule);
    var s, log := RunAll(env, s0, schedule), Events(env, s0, schedule);
    assert CoverOk(s, log, t);
    NothingPending(s.store.threads[t], s.clients[t], log, t);
    l :| 0 <= l < |log| && log[l].thread == t && log[l].op.ListCredentials?;
    LegalAt(env.capacity, v0, log, l);
    var v := Replay(env.capacity, v0, log[..l]);
    ShownIsWellFiled(env, s0.store, v0);
    ReplayKeepsWellFiled(env.capacity, v0, log[..l]);
    ListedAreGot(s.store.threads[t], s.clients[t], log, t, l, v);
  }

  /** Each get of thread `t` that read an expired credential has its deletion after it. */
  ghost predicate Followed(log: seq<Event>, t: nat, now: u64) {
    forall g :: 0 <= g < |log| && log[g].thread == t && log[g].op.GetCredential?
                && ReadsExpired(log[g], log[g].op.id, now) ==>
                  DeletedAfter(log, g, t, log[g].op.id)
  }

  lemma NothingPending(th: Thread, c: Client, log: seq<Event>, t: nat)
    requires c.Sweep? && c.result.Some? && FollowedOk(th, c, log, t)
    ensures Followed(log, t, c.now)
  {
    hide DeletedAfter, LastOwn;
  }

  lemma ListedAreGot(th: Thread, c: Client, log: seq<Event>, t: nat, l: nat, v: Vault)
    requires c.Sweep? && c.result.Some? && c.rest == [] && th.pc.Finished? && ListedOk(th, c, log, t)
    requires l < |log| && log[l].thread == t && log[l].op.ListCredentials?
    requires log[l].reply == Listing(ListOf(MetadataOf(v))) && WellFiled(v)
    ensures forall id :: id in v.creds ==> Got(log, t, id)
  {
    hide Got, ListOf, MetadataOf;
    var ids := Stores.ListVisitsAll(v);
    forall id | id in v.creds ensures Got(log, t, id) {
      var k :| 0 <= k < |ids| && ids[k] == id;
      assert log[l].reply.list[k].id == id;
    }
  }

  // ----- Calls made without interruption -----

  /** Neither mutex is held and the maps stand for `v`. */
  ghost predicate Quiet(env: Env, s: System, v: Vault) {
    && s.dataLock == None && s.metadataLock == None
    && Consistent(env.codec, Store(s.data, s.metadata))
    && VaultOf(env.codec, Store(s.data, s.metadata)) == v
    && |s.metadata| <= env.capacity
  }

  function Repeat(t: nat, n: nat): seq<nat> {
    if n == 0 then [] else Repeat(t, n - 1) + [t]
  }

  lemma {:induction false} RunAllAppend(env: Env, s: State, a: seq<nat>, b: seq<nat>)
    ensures RunAll(env, s, a + b) == RunAll(env, RunAll(env, s, a), b)
  {
    hide Step;
    if b == [] {
      assert a + b == a;
    } else {
      RunAllAppend(env, s, a, b[..|b| - 1]);
      assert (a + b)[..|a + b| - 1] == a + b[..|b| - 1];
    }
  }

  lemma RunAllOne(env: Env, s: State, t: nat)
    ensures RunAll(env, s, [t]) == Step(env, s, t)
  {
    hide Step;
    assert RunAll(env, s, [t][..0]) == s;
  }

  lemma RunAllRepeat(env: Env, s: State, t: nat, n: nat)
    ensures RunAll(env, s, Repeat(t, n + 1)) == Step(env, RunAll(env, s, Repeat(t, n)), t)
  {
    hide Step;
    assert Repeat(t, n + 1)[..|Repeat(t, n + 1)| - 1] == Repeat(t, n);
  }

  lemma StepIsNext(env: Env, s: State, t: nat)
    requires t < |s.store.threads| == |s.clients| && !s.store.threads[t].pc.Finished? && Next(env, s.store, t).Some?
    ensures Step(env, s, t) == s.(store := Next(env, s.store, t).value)
  {
    hide Next;
  }

  /** A call on a quiet store, from its start to its answer, leaves the store quiet and is
      the operation on the vault. */
  ghost predicate Called(env: Env, s: State, t: nat, v: Vault, s': State)
    requires t < |s.store.threads|
  {
    var op := s.store.threads[t].op;
    && s'.clients == s.clients
    && s'.store.threads == s.store.threads[t := Thread(op, Finished(Apply(op, v, env.capacity).1))]
    && Quiet(env, s'.store, Apply(op, v, env.capacity).0)
  }

  lemma ShortCall(env: Env, s: State, t: nat, v: Vault) returns (s': State)
    requires env.codec.Lawful() && t < |s.store.threads| == |s.clients| && Quiet(env, s.store, v)
    requires s.store.threads[t].pc == Ready && !LocksBoth(s.store.threads[t].op) && KeepsApart(s.store.threads[t].op)
    ensures s' == RunAll(env, s, Repeat(t, 3)) && Called(env, s, t, v, s')
  {
    hide Apply, Consistent, VaultOf, Step, RunAll, Answer, WriteData, WriteMetadata, Repeat, Codec.Lawful;
    var st, op := s.store, s.store.threads[t].op;
    var whole := Store(st.data, st.metadata);
    WholeStep(env, op, whole, v);
    AnswerReadsItsMap(env.codec, op, whole);
    var reply := Answer(env.codec, op, whole);
    var s1, s2: State;
    if op.ListCredentials? {
      s1 := s.(store := st.At(t, WithMetadata).(metadataLock := Some(t)));
      s2 := s.(store := st.At(t, Committed(reply)).(metadataLock := Some(t)));
    } else {
      s1 := s.(store := st.At(t, WithData).(dataLock := Some(t)));
      s2 := s.(store := st.At(t, Committed(reply)).(dataLock := Some(t)).(data := WriteData(env.codec, op, st.data)));
    }
    s' := s.(store := st.At(t, Finished(reply)).(data := WriteData(env.codec, op, st.data)));
    StepIsNext(env, s, t);
    StepIsNext(env, s1, t);
    StepIsNext(env, s2, t);
    assert Step(env, s, t) == s1 && Step(env, s1, t) == s2 && Step(env, s2, t) == s';
    ThreeSteps(env, s, t, s1, s2, s');
  }

  lemma ThreeSteps(env: Env, s: State, t: nat, s1: State, s2: State, s3: State)
    requires Step(env, s, t) == s1 && Step(env, s1, t) == s2 && Step(env, s2, t) == s3
    ensures RunAll(env, s, Repeat(t, 3)) == s3
  {
    hide Step;
    assert RunAll(env, s, Repeat(t, 0)) == s;
    RunAllRepeat(env, s, t, 0);
    RunAllRepeat(env, s, t, 1);
    RunAllRepeat(env, s, t, 2);
  }

  /** Both mutexes taken and the data map written. */
  function HalfDone(env: Env, s: State, t: nat): State
    requires t < |s.store.threads|
  {
    var op := s.store.threads[t].op;
    s.(store := s.store.At(t, Mid(s.store.data))
                .(dataLock := Some(t), metadataLock := Some(t), data := WriteData(env.codec, op, s.store.data)))
  }

  lemma LongCallWrites(env: Env, s: State, t: nat)
    requires t < |s.store.threads| == |s.clients| && s.store.dataLock == None && s.store.metadataLock == None
    requires s.store.threads[t].pc == Ready && LocksBoth(s.store.threads[t].op)
    requires !Refuses(s.store.threads[t].op, s.store.metadata, env.capacity)
    ensures RunAll(env, s, Repeat(t, 3)) == HalfDone(env, s, t)
  {
    hide Step, RunAll, WriteData, Refuses, Repeat;
    var s1 := s.(store := s.store.At(t, WithData).(dataLock := Some(t)));
    var s2 := s.(store := s.store.At(t, WithBoth).(dataLock := Some(t), metadataLock := Some(t)));
    StepIsNext(env, s, t);
    StepIsNext(env, s1, t);
    StepIsNext(env, s2, t);
    ThreeSteps(env, s, t, s1, s2, HalfDone(env, s, t));
  }

  lemma LongCallReturns(env: Env, s: State, t: nat) returns (s': State)
    requires t < |s.store.threads| == |s.clients| && s.store.dataLock == None && s.store.metadataLock == None
    requires LocksBoth(s.store.threads[t].op)
    ensures s' == RunAll(env, HalfDone(env, s, t), Repeat(t, 3))
    ensures var (op, st) := (s.store.threads[t].op, s.store);
            s' == s.(store := st.At(t, Finished(Answer(env.codec, op, Store(st.data, st.metadata))))
                              .(data := WriteData(env.codec, op, st.data), metadata := WriteMetadata(op, st.metadata)))
  {
    hide Step, RunAll, WriteData, WriteMetadata, Answer, Repeat;
    var st, op := s.store, s.store.threads[t].op;
    var reply := Answer(env.codec, op, Store(st.data, st.metadata));
    var written := st.(data := WriteData(env.codec, op, st.data), metadata := WriteMetadata(op, st.metadata));
    var s3 := HalfDone(env, s, t);
    var s4 := s.(store := written.At(t, Committed(reply)).(dataLock := Some(t), metadataLock := Some(t)));
    var s5 := s.(store := written.At(t, MetadataReleased(reply)).(dataLock := Some(t)));
    s' := s.(store := written.At(t, Finished(reply)));
    StepIsNext(env, s3, t);
    StepIsNext(env, s4, t);
    StepIsNext(env, s5, t);
    ThreeSteps(env, s3, t, s4, s5, s');
  }

  lemma LongCall(env: Env, s: State, t: nat, v: Vault) returns (s': State)
    requires env.codec.Lawful() && t < |s.store.threads| == |s.clients| && Quiet(env, s.store, v)
    requires s.store.threads[t].pc == Ready && LocksBoth(s.store.threads[t].op)
    requires !Refuses(s.store.threads[t].op, s.store.metadata, env.capacity)
    ensures s' == RunAll(env, s, Repeat(t, 3) + Repeat(t, 3)) && Called(env, s, t, v, s')
  {
    hide Apply, Consistent, VaultOf, RunAll, HalfDone, Answer, WriteData, WriteMetadata, Refuses, Repeat;
    WholeStep(env, s.store.threads[t].op, Store(s.store.data, s.store.metadata), v);
    LongCallWrites(env, s, t);
    s' := LongCallReturns(env, s, t);
    RunAllAppend(env, s, Repeat(t, 3), Repeat(t, 3));
  }

  lemma ResumeCall(env: Env, s: State, t: nat, v: Vault) returns (s': State)
    requires t < |s.store.threads| == |s.clients| && Resumes(s, t) && Quiet(env, s.store, v)
    ensures s' == RunAll(env, s, [t]) && Quiet(env, s'.store, v)
    ensures var (c, next) := Resume(s.clients[t], s.store.threads[t].op, s.store.threads[t].pc.reply);
            && s'.clients == s.clients[t := c]
            && s'.store.threads
               == if next.Some? then s.store.threads[t := Thread(next.value, Ready)] else s.store.threads
  {
    hide Resume, Next, Consistent, VaultOf;
    RunAllOne(env, s, t);
    s' := Step(env, s, t);
    var (c, next) := Resume(s.clients[t], s.store.threads[t].op, s.store.threads[t].pc.reply);
    if next.Some? {
      assert s'.store == s.store.(threads := s.store.threads[t := Thread(next.value, Ready)]);
    } else {
      assert s'.store == s.store;
    }
  }

  // ----- A sweep without interruption -----

  lemma {:induction false} RepeatAppend(t: nat, a: nat, b: nat)
    ensures Repeat(t, a) + Repeat(t, b) == Repeat(t, a + b)
  {
    if b > 0 {
      RepeatAppend(t, a, b - 1);
    }
  }

  lemma RunRepeat(env: Env, s: State, t: nat, a: nat, b: nat)
    ensures RunAll(env, s, Repeat(t, a + b)) == RunAll(env, RunAll(env, s, Repeat(t, a)), Repeat(t, b))
  {
    RepeatAppend(t, a, b);
    RunAllAppend(env, s, Repeat(t, a), Repeat(t, b));
  }

  /** Only thread `t` has moved. */
  predicate OthersSame(s: State, s': State, t: nat) {
    && |s'.clients| == |s.clients| && |s'.store.threads| == |s.store.threads|
    && (forall u :: 0 <= u < |s.clients| && u != t ==> s'.clients[u] == s.clients[u])
    && forall u :: 0 <= u < |s.store.threads| && u != t ==> s'.store.threads[u] == s.store.threads[u]
  }

  /** The sweep of thread `t` is at the head of its loop: the ids from `i` on are left. */
  ghost predicate AtRow(env: Env, s: State, t: nat, v0: Vault, ids: seq<string>, i: nat, now: u64)
    requires i <= |ids|
  {
    var v := Stores.SweptExcept(v0, now, Stores.IdsFrom(ids, i));
    && t < |s.store.threads| == |s.clients| && Quiet(env, s.store, v)
    && s.clients[t].Sweep? && s.clients[t].now == now && s.clients[t].removed + |v.creds| == |v0.creds|
    && if i < |ids|
       then s.store.threads[t] == Thread(GetCredential(ids[i]), Ready)
            && s.clients[t].rest == ids[i + 1..] && s.clients[t].result == None
       else s.store.threads[t].pc.Finished? && s.clients[t].result == Some(Ok(s.clients[t].removed))
  }

  /** One call and the step after it. */
  lemma CallAndResume(env: Env, s: State, t: nat, v: Vault) returns (steps: nat, s': State)
    requires env.codec.Lawful() && t < |s.store.threads| == |s.clients| && Quiet(env, s.store, v)
    requires s.clients[t].Sweep? && s.clients[t].result == None && s.store.threads[t].pc == Ready
    requires var op := s.store.threads[t].op; op.ListCredentials? || op.GetCredential? || op.DeleteCredential?
    ensures s' == RunAll(env, s, Repeat(t, steps)) && OthersSame(s, s', t)
    ensures var (v', reply) := Apply(s.store.threads[t].op, v, env.capacity);
            var (c, next) := Resume(s.clients[t], s.store.threads[t].op, reply);
            && Quiet(env, s'.store, v') && s'.clients[t] == c
            && s'.store.threads[t]
               == if next.Some? then Thread(next.value, Ready) else Thread(s.store.threads[t].op, Finished(reply))
  {
    hide Quiet, RunAll, Apply, Resume, Repeat;
    var called: State;
    var op := s.store.threads[t].op;
    if op.DeleteCredential? {
      called := LongCall(env, s, t, v);
      RepeatAppend(t, 3, 3);
      steps := 6;
    } else {
      called := ShortCall(env, s, t, v);
      steps := 3;
    }
    assert called == RunAll(env, s, Repeat(t, steps));
    s' := ResumeCall(env, called, t, Apply(op, v, env.capacity).0);
    RunRepeat(env, s, t, steps, 1);
    assert Repeat(t, 1) == [t] by { RepeatOnce(t); }
    steps := steps + 1;
  }

  lemma RepeatOnce(t: nat)
    ensures Repeat(t, 1) == [t]
  {
    assert Repeat(t, 0) == [];
  }

  /** The body of the loop for one id. */
  lemma OneRow(env: Env, s: State, t: nat, v0: Vault, ids: seq<string>, i: nat, now: u64)
    returns (steps: nat, s': State)
    requires env.codec.Lawful() && i < |ids| && AtRow(env, s, t, v0, ids, i, now)
    requires forall k :: 0 <= k < |ids| ==> ids[k] in v0.creds
    requires forall j, k :: 0 <= j < k < |ids| ==> ids[j] != ids[k]
    ensures s' == RunAll(env, s, Repeat(t, steps)) && OthersSame(s, s', t) && AtRow(env, s', t, v0, ids, i + 1, now)
  {
    hide Quiet, RunAll, Repeat, Stores.SweptExcept, Stores.IdsFrom;
    Stores.SweepStep(v0, now, ids, i);
    var v := Stores.SweptExcept(v0, now, Stores.IdsFrom(ids, i));
    var v' := Stores.SweptExcept(v0, now, Stores.IdsFrom(ids, i + 1));
    steps, s' := CallAndResume(env, s, t, v);
    if v0.creds[ids[i]].cred.exp < now {
      var more, s'' := CallAndResume(env, s', t, v);
      RunRepeat(env, s, t, steps, more);
      steps, s' := steps + more, s'';
    }
    assert i + 1 < |ids| ==> ids[i + 1..][0] == ids[i + 1] && ids[i + 1..][1..] == ids[i + 2..];
  }

  lemma {:induction false} RowsAlone(env: Env, s: State, t: nat, v0: Vault, ids: seq<string>, i: nat, now: u64)
    returns (steps: nat, s': State)
    requires env.codec.Lawful() && i <= |ids| && AtRow(env, s, t, v0, ids, i, now)
    requires forall k :: 0 <= k < |ids| ==> ids[k] in v0.creds
    requires forall j, k :: 0 <= j < k < |ids| ==> ids[j] != ids[k]
    ensures s' == RunAll(env, s, Repeat(t, steps)) && OthersSame(s, s', t) && AtRow(env, s', t, v0, ids, |ids|, now)
    decreases |ids| - i
  {
    hide AtRow, RunAll;
    if i == |ids| {
      steps, s' := 0, s;
      assert RunAll(env, s, Repeat(t, 0)) == s by { RunNothing(env, s, t); }
    } else {
      var first, s1 := OneRow(env, s, t, v0, ids, i, now);
      var more, s2 := RowsAlone(env, s1, t, v0, ids, i + 1, now);
      RunRepeat(env, s, t, first, more);
      steps, s' := first + more, s2;
    }
  }

  lemma RunNothing(env: Env, s: State, t: nat)
    ensures RunAll(env, s, Repeat(t, 0)) == s
  {
  }

  /** A sweep that runs without another thread in between is `cleanup_expired` on the vault:
      it deletes exactly the expired credentials and returns how many there were. */
  lemma SweepAloneIsCleanup(env: Env, s: State, t: nat, v: Vault, now: u64) returns (steps: nat, s': State)
    requires env.codec.Lawful() && t < |s.store.threads| == |s.clients| && Quiet(env, s.store, v)
    requires s.store.threads[t] == Thread(ListCredentials, Ready) && s.clients[t] == Sweep(now, [], 0, None)
    ensures s' == RunAll(env, s, Repeat(t, steps)) && OthersSame(s, s', t)
    ensures Quiet(env, s'.store, Stores.Swept(v, now))
    ensures s'.clients[t].Sweep?
    ensures s'.clients[t].result == Some(Ok(|v.creds| - |Stores.Swept(v, now).creds|))
  {
    hide RunAll, Repeat, Quiet, AtRow;
    var ids, first, s1 := ListsAlone(env, s, t, v, now);
    var more, s2 := RowsAlone(env, s1, t, v, ids, 0, now);
    RunRepeat(env, s, t, first, more);
    steps, s' := first + more, s2;
    RowsDone(env, s', t, v, ids, now);
  }

  lemma ListsAlone(env: Env, s: State, t: nat, v: Vault, now: u64) returns (ids: seq<string>, steps: nat, s': State)
    requires env.codec.Lawful() && t < |s.store.threads| == |s.clients| && Quiet(env, s.store, v)
    requires s.store.threads[t] == Thread(ListCredentials, Ready) && s.clients[t] == Sweep(now, [], 0, None)
    ensures s' == RunAll(env, s, Repeat(t, steps)) && OthersSame(s, s', t)
    ensures AtRow(env, s', t, v, ids, 0, now)
    ensures forall k :: 0 <= k < |ids| ==> ids[k] in v.creds
    ensures forall j, k :: 0 <= j < k < |ids| ==> ids[j] != ids[k]
  {
    hide RunAll, Repeat, Quiet, ListOf, MetadataOf, Stores.SweptExcept, Stores.IdsFrom;
    QuietIsWellFiled(env, s.store, v);
    ids := Stores.ListVisitsAll(v);
    var list := ListOf(MetadataOf(v));
    assert IdsOf(list) == ids;
    NothingSweptYet(v, now, ids);
    steps, s' := CallAndResume(env, s, t, v);
    assert ids != [] ==> ids[0..] == ids && ids[1..] == ids[0 + 1..];
  }

  lemma RowsDone(env: Env, s: State, t: nat, v: Vault, ids: seq<string>, now: u64)
    requires AtRow(env, s, t, v, ids, |ids|, now)
    ensures Quiet(env, s.store, Stores.Swept(v, now))
    ensures s.clients[t].Sweep? && s.clients[t].result == Some(Ok(|v.creds| - |Stores.Swept(v, now).creds|))
  {
    assert Stores.IdsFrom(ids, |ids|) == {};
  }

  lemma QuietIsWellFiled(env: Env, s: System, v: Vault)
    requires Quiet(env, s, v)
    ensures WellFiled(v)
  {
  }

  lemma NothingSweptYet(v: Vault, now: u64, ids: seq<string>)
    requires forall id :: id in v.creds ==> id in ids
    ensures Stores.SweptExcept(v, now, Stores.IdsFrom(ids, 0)) == v
  {
    assert Stores.SweptExcept(v, now, Stores.IdsFrom(ids, 0)).creds == v.creds;
  }

  // ----- Two runs in which the sweep and another thread collide -----

  /** A store that holds the one credential `e`. */
  ghost predicate Only(v: Vault, e: Entry) {
    v.creds == map[e.meta.id := e]
  }

  lemma ListOfOnly(v: Vault, e: Entry)
    requires Only(v, e)
    ensures IdsOf(ListOf(MetadataOf(v))) == [e.meta.id]
  {
    var keys := MetadataOf(v).Keys;
    assert keys == {e.meta.id};
    InOrderVisitsAll(keys);
    assert InOrder(keys)[0] in InOrder(keys);
    RowAt(InOrder(keys), MetadataOf(v), 0);
  }

  function ReadingSteps(t: nat): seq<nat> {
    (Repeat(t, 3) + [t]) + (Repeat(t, 3) + [t])
  }

  /** Left alone, a sweep lists the one credential, reads that it has expired, and is about
      to delete it. */
  lemma SweepReads(env: Env, s: State, t: nat, v: Vault, e: Entry, now: u64) returns (s': State)
    requires env.codec.Lawful() && t < |s.store.threads| == |s.clients| && Quiet(env, s.store, v)
    requires Only(v, e) && e.cred.exp < now
    requires s.store.threads[t] == Thread(ListCredentials, Ready) && s.clients[t] == Sweep(now, [], 0, None)
    ensures s' == RunAll(env, s, ReadingSteps(t)) && Quiet(env, s'.store, v)
    ensures s'.clients == s.clients
    ensures s'.store.threads == s.store.threads[t := Thread(DeleteCredential(e.meta.id), Ready)]
  {
    hide Quiet, RunAll, ListOf, MetadataOf, Repeat;
    ListOfOnly(v, e);
    var s1 := ShortCall(env, s, t, v);
    var s2 := ResumeCall(env, s1, t, v);
    RunAllAppend(env, s, Repeat(t, 3), [t]);
    assert s2.store.threads[t] == Thread(GetCredential(e.meta.id), Ready);
    assert [e.meta.id][1..] == [];
    assert s2.clients[t] == s.clients[t];
    var s3 := ShortCall(env, s2, t, v);
    s' := ResumeCall(env, s3, t, v);
    RunAllAppend(env, s2, Repeat(t, 3), [t]);
    RunAllAppend(env, s, Repeat(t, 3) + [t], Repeat(t, 3) + [t]);
  }

  function DeletingSteps(t: nat): seq<nat> {
    (Repeat(t, 3) + Repeat(t, 3)) + [t]
  }

  /** The sweep then deletes whatever is filed under the id by now, and returns 1. */
  lemma SweepDeletes(env: Env, s: State, t: nat, v: Vault, id: string, now: u64) returns (s': State)
    requires env.codec.Lawful() && t < |s.store.threads| == |s.clients| && Quiet(env, s.store, v)
    requires s.store.threads[t] == Thread(DeleteCredential(id), Ready) && s.clients[t] == Sweep(now, [], 0, None)
    ensures s' == RunAll(env, s, DeletingSteps(t)) && Quiet(env, s'.store, v.(creds := v.creds - {id}))
    ensures s'.clients == s.clients[t := Sweep(now, [], 1, Some(Ok(1)))]
    ensures s'.store.threads == s.store.threads[t := Thread(DeleteCredential(id), Finished(Removed(id in v.creds)))]
  {
    hide Quiet, RunAll, Repeat;
    var s1 := LongCall(env, s, t, v);
    s' := ResumeCall(env, s1, t, v.(creds := v.creds - {id}));
    RunAllAppend(env, s, Repeat(t, 3) + Repeat(t, 3), [t]);
  }

  /** A store that holds only `e`, with both mutexes free. */
  function OnlyStore(env: Env, e: Entry, threads: seq<Thread>): System {
    System(map[CredEntry(e.meta.id) := env.codec.Write(e.cred)], map[e.meta.id := e.meta], None, None, threads)
  }

  lemma OnlyStoreIsQuiet(env: Env, e: Entry, threads: seq<Thread>) returns (v: Vault)
    requires env.codec.Lawful() && env.capacity >= 1
    ensures Quiet(env, OnlyStore(env, e, threads), v) && Only(v, e)
    ensures (forall t :: 0 <= t < |threads| ==> threads[t].pc == Ready && KeepsApart(threads[t].op)) ==>
              Initial(env, OnlyStore(env, e, threads), v)
  {
    hide Shows, Quiet, OnlyStore;
    v := OnlyStoreVault(env, e, threads);
    QuietIsShown(env, OnlyStore(env, e, threads), v);
    assert OnlyStore(env, e, threads).threads == threads by { OnlyStoreThreads(env, e, threads); }
    assert Quiet(env, OnlyStore(env, e, threads), v) ==>
             OnlyStore(env, e, threads).dataLock == None && OnlyStore(env, e, threads).metadataLock == None by {
      QuietIsUnlocked(env, OnlyStore(env, e, threads), v);
    }
  }

  lemma QuietIsUnlocked(env: Env, s: System, v: Vault)
    requires Quiet(env, s, v)
    ensures s.dataLock == None && s.metadataLock == None
  {
  }

  lemma OnlyStoreVault(env: Env, e: Entry, threads: seq<Thread>) returns (v: Vault)
    requires env.codec.Lawful() && env.capacity >= 1
    ensures Quiet(env, OnlyStore(env, e, threads), v) && Only(v, e)
  {
    var s := OnlyStore(env, e, threads);
    StorageFormatRoundTrip(env.codec, e.cred);
    hide Codec.Write, Codec.Read, Codec.Lawful;
    assert Consistent(env.codec, Store(s.data, s.metadata));
    v := VaultOf(env.codec, Store(s.data, s.metadata));
    assert Only(v, e) by {
      VaultMetadata(env.codec, Store(s.data, s.metadata));
      assert v.creds.Keys == {e.meta.id};
    }
  }

  lemma QuietIsShown(env: Env, s: System, v: Vault)
    requires Quiet(env, s, v)
    ensures Shows(env, s, v)
  {
    assert Settled(s) == Store(s.data, s.metadata);
  }

  /** A sweep and a renewal of the one expired credential: the renewal is accepted between
      the sweep's get and its deletion, and the renewed credential is gone. */
  lemma RenewedCredentialIsLost(env: Env, stale: Entry, renewed: Entry, now: u64)
    returns (s0: State, v0: Vault, schedule: seq<nat>)
    requires env.codec.Lawful() && env.capacity >= 1
    requires stale.meta.id == renewed.meta.id && stale.cred.exp < now <= renewed.cred.exp
    ensures Start(env, s0, v0) && Only(v0, stale)
    ensures s0.clients == [Sweep(now, [], 0, None), OneCall]
    ensures s0.store.threads[1].op == PutCredential(renewed.cred, renewed.meta)
    ensures var s := RunAll(env, s0, schedule);
            && |s.clients| == |s.store.threads| == 2
            && s.store.threads[1].pc == Finished(Done)
            && s.clients[0] == Sweep(now, [], 1, Some(Ok(1)))
            && s.store.threads[0].pc == Finished(Removed(true))
            && Quiet(env, s.store, v0.(creds := map[]))
  {
    hide Quiet, RunAll, Only, OnlyStore, Initial, ReadingSteps, DeletingSteps, Repeat;
    var id := stale.meta.id;
    var threads := [Thread(ListCredentials, Ready), Thread(PutCredential(renewed.cred, renewed.meta), Ready)];
    v0 := OnlyStoreIsQuiet(env, stale, threads);
    s0 := State(OnlyStore(env, stale, threads), [Sweep(now, [], 0, None), OneCall]);
    assert s0.store.threads == threads by { OnlyStoreThreads(env, stale, threads); }
    var s1 := SweepReads(env, s0, 0, v0, stale, now);
    assert id in v0.creds && !Refuses(s1.store.threads[1].op, s1.store.metadata, env.capacity) by {
      PresentIsNotRefused(env, s1.store, v0, stale, renewed);
    }
    var s2 := LongCall(env, s1, 1, v0);
    var v2 := v0.(creds := v0.creds[id := renewed]);
    assert Apply(threads[1].op, v0, env.capacity) == (v2, Done);
    var s3 := SweepDeletes(env, s2, 0, v2, id, now);
    assert v2.(creds := v2.creds - {id}) == v0.(creds := map[]) by { OnlyOne(v0, stale, renewed); }
    schedule := (ReadingSteps(0) + (Repeat(1, 3) + Repeat(1, 3))) + DeletingSteps(0);
    RunAllAppend(env, s0, ReadingSteps(0), Repeat(1, 3) + Repeat(1, 3));
    RunAllAppend(env, s0, ReadingSteps(0) + (Repeat(1, 3) + Repeat(1, 3)), DeletingSteps(0));
  }

  lemma OnlyStoreThreads(env: Env, e: Entry, threads: seq<Thread>)
    ensures OnlyStore(env, e, threads).threads == threads
  {
  }

  lemma OnlyOne(v: Vault, e: Entry, e': Entry)
    requires Only(v, e)
    ensures v.creds - {e.meta.id} == map[] && |v.creds| == 1
    ensures v.creds[e.meta.id := e'] - {e.meta.id} == map[]
  {
    assert v.creds[e.meta.id := e'].Keys == {e.meta.id};
  }

  lemma PresentIsNotRefused(env: Env, s: System, v: Vault, stale: Entry, renewed: Entry)
    requires Quiet(env, s, v) && Only(v, stale) && stale.meta.id == renewed.meta.id
    ensures stale.meta.id in v.creds
    ensures !Refuses(PutCredential(renewed.cred, renewed.meta), s.metadata, env.capacity)
  {
    VaultMetadata(env.codec, Store(s.data, s.metadata));
  }

  /** Two sweeps over one expired credential: both return 1, and one removed it. */
  lemma TwoSweepsCountTheSame(env: Env, stale: Entry, now: u64)
    returns (s0: State, v0: Vault, schedule: seq<nat>)
    requires env.codec.Lawful() && env.capacity >= 1 && stale.cred.exp < now
    ensures Start(env, s0, v0) && Only(v0, stale) && |v0.creds| == 1
    ensures s0.clients == [Sweep(now, [], 0, None), Sweep(now, [], 0, None)]
    ensures var s := RunAll(env, s0, schedule);
            && |s.clients| == |s.store.threads| == 2
            && s.clients[0].Sweep? && s.clients[0].result == Some(Ok(1))
                && s.store.threads[0].pc == Finished(Removed(true))
            && s.clients[1].Sweep? && s.clients[1].result == Some(Ok(1))
                && s.store.threads[1].pc == Finished(Removed(false))
            && Quiet(env, s.store, v0.(creds := map[]))
  {
    hide Quiet, RunAll, Only, OnlyStore, Initial, ReadingSteps, DeletingSteps;
    var id := stale.meta.id;
    var threads := [Thread(ListCredentials, Ready), Thread(ListCredentials, Ready)];
    v0 := OnlyStoreIsQuiet(env, stale, threads);
    s0 := State(OnlyStore(env, stale, threads), [Sweep(now, [], 0, None), Sweep(now, [], 0, None)]);
    assert s0.store.threads == threads by { OnlyStoreThreads(env, stale, threads); }
    var s1 := SweepReads(env, s0, 0, v0, stale, now);
    var s2 := SweepReads(env, s1, 1, v0, stale, now);
    assert id in v0.creds by { PresentIsNotRefused(env, s2.store, v0, stale, stale); }
    var v3 := v0.(creds := v0.creds - {id});
    var s3 := SweepDeletes(env, s2, 0, v0, id, now);
    var s4 := SweepDeletes(env, s3, 1, v3, id, now);
    assert v0.creds - {id} == map[] && |v0.creds| == 1 by { OnlyOne(v0, stale, stale); }
    assert v3.creds - {id} == map[];
    schedule := (ReadingSteps(0) + ReadingSteps(1)) + (DeletingSteps(0) + DeletingSteps(1));
    RunAllAppend(env, s0, ReadingSteps(0), ReadingSteps(1));
    RunAllAppend(env, s2, DeletingSteps(0), DeletingSteps(1));
    RunAllAppend(env, s0, ReadingSteps(0) + ReadingSteps(1), DeletingSteps(0) + DeletingSteps(1));
  }
}
