/** The three process-global write-once cells of `crates/core/src/prover.rs`, filled by
    any number of racing initialisers and read by any number of request builders. */
module ProverInit {
  import opened Machine
  import opened WalletTypes
  import opened Crypto
  import opened Prover
  import opened AgeCutoff

  datatype Globals = Globals(params: Option<Params>, fingerprint: Option<string>, vkId: Option<u32>)

  datatype Cell = ParamsCell | FingerprintCell | VkIdCell

  /** How an initialiser returns. `Skipped` is the early return when the parameters are
      already there; to the caller it is `Ok(())`, like `Initialised`. */
  datatype Outcome = Initialised | Skipped | BadKey | AlreadySet(cell: Cell)

  function ReturnValue(o: Outcome): Result<(), ProverError> {
    match o
    case Initialised => Ok(())
    case Skipped => Ok(())
    case BadKey => Err(InvalidProvingKey)
    case AlreadySet(_) => Err(AlreadyInitialized)
  }

  datatype InitPc =
    | Check
    | Load
    | SetParams(params: Params)
    | SetFingerprint(params: Params)
    | SetVkId(params: Params)
    | Returned(outcome: Outcome)

  datatype BuildPc =
    | ReadParams
    | ReadVkId(params: Params)
    | RunGates(params: Params, vkId: u32)
    | Answered(answer: Result<SubmitProofRequest, ProverError>)

  datatype Thread =
    | Initialiser(pkBytes: Bytes, ipc: InitPc)
    | Builder(cred: CredentialV2, qr: QrChallengePayload, now: u64, bpc: BuildPc)

  datatype System = System(globals: Globals, threads: seq<Thread>)

  const EMPTY: Globals := Globals(None, None, None)

  /** One step of `init_prover_with_pk_bytes`. */
  function InitStep(crypto: Functions, g: Globals, pkBytes: Bytes, pc: InitPc): (Globals, InitPc) {
    match pc
    case Check => if g.params.Some? then (g, Returned(Skipped)) else (g, Load)
    case Load =>
      (match crypto.loadProvingKey(pkBytes)
       case None => (g, Returned(BadKey))
       case Some(params) => (g, SetParams(params)))
    case SetParams(params) =>
      if g.params.Some? then (g, Returned(AlreadySet(ParamsCell)))
      else (g.(params := Some(params)), SetFingerprint(params))
    case SetFingerprint(params) =>
      if g.fingerprint.Some? then (g, Returned(AlreadySet(FingerprintCell)))
      else (g.(fingerprint := Some(crypto.fingerprint(pkBytes))), SetVkId(params))
    case SetVkId(params) =>
      if g.vkId.Some? then (g, Returned(AlreadySet(VkIdCell)))
      else (g.(vkId := Some(crypto.vkId(params))), Returned(Initialised))
    case Returned(_) => (g, pc)
  }

  /** One step of `build_verify_request`: the two cells are read one after the other. */
  function BuildStep(crypto: Functions, g: Globals, cred: CredentialV2, qr: QrChallengePayload, now: u64, pc: BuildPc)
    : BuildPc
  {
    match pc
    case ReadParams => if g.params.Some? then ReadVkId(g.params.value) else Answered(Err(NotInitialized))
    case ReadVkId(params) => if g.vkId.Some? then RunGates(params, g.vkId.value) else Answered(Err(NotInitialized))
    case RunGates(params, vkId) => Answered(Gates(crypto, params, vkId, g.fingerprint, g.vkId, cred, qr, now))
    case Answered(_) => pc
  }

  /** The state after thread `t` has taken one step; a returned thread does nothing. */
  function Step(crypto: Functions, s: System, t: nat): System {
    if t >= |s.threads| then s
    else
      match s.threads[t]
      case Initialiser(pkBytes, pc) =>
        var (g, pc') := InitStep(crypto, s.globals, pkBytes, pc);
        System(g, s.threads[t := Initialiser(pkBytes, pc')])
      case Builder(cred, qr, now, pc) =>
        s.(threads := s.threads[t := Builder(cred, qr, now, BuildStep(crypto, s.globals, cred, qr, now, pc))])
  }

  function Run(crypto: Functions, s: System, schedule: seq<nat>): System {
    if schedule == [] then s
    else Step(crypto, Run(crypto, s, schedule[..|schedule| - 1]), schedule[|schedule| - 1])
  }

  ghost predicate Initial(s: System) {
    && s.globals == EMPTY
    && forall t :: 0 <= t < |s.threads| ==>
                     match s.threads[t]
                     case Initialiser(_, pc) => pc == Check
                     case Builder(_, _, _, pc) => pc == ReadParams
  }

  // ----- Invariant -----

  /** The thread filled the first cell. */
  predicate Won(th: Thread) {
    th.Initialiser? && (th.ipc.SetFingerprint? || th.ipc.SetVkId? || th.ipc == Returned(Initialised))
  }

  /** What a thread has seen agrees with the cells. */
  predicate ThreadOk(crypto: Functions, g: Globals, th: Thread) {
    match th
    case Initialiser(pkBytes, pc) =>
      (match pc
       case SetParams(params) => crypto.loadProvingKey(pkBytes) == Some(params)
       case Returned(Skipped) => g.params.Some?
       case Returned(BadKey) => crypto.loadProvingKey(pkBytes).None?
       case Returned(AlreadySet(cell)) => cell == ParamsCell && g.params.Some?
       case _ => true)
    case Builder(cred, qr, now, pc) =>
      (match pc
       case ReadVkId(params) => g.params == Some(params)
       case RunGates(params, vkId) => g.params == Some(params) && g.vkId == Some(vkId)
       case Answered(answer) =>
         || answer == Err(NotInitialized)
         || (&& g.params.Some? && g.vkId.Some?
             && answer == Gates(crypto, g.params.value, g.vkId.value, g.fingerprint, g.vkId, cred, qr, now))
       case _ => true)
  }

  /** The cells are what the winner has set so far, all from its own bytes. */
  predicate CellsOf(crypto: Functions, g: Globals, th: Thread) {
    && Won(th)
    && g.params.Some? && crypto.loadProvingKey(th.pkBytes) == g.params
    && (match th.ipc
        case SetFingerprint(params) => g == Globals(Some(params), None, None)
        case SetVkId(params) => g == Globals(Some(params), Some(crypto.fingerprint(th.pkBytes)), None)
        case _ => g == Globals(g.params, Some(crypto.fingerprint(th.pkBytes)), Some(crypto.vkId(g.params.value))))
  }

  /** No cell is set and nobody has won; or `w` is the only winner and the cells are its. */
  ghost predicate Winner(crypto: Functions, s: System, w: Option<nat>) {
    match w
    case None => s.globals == EMPTY && forall t :: 0 <= t < |s.threads| ==> !Won(s.threads[t])
    case Some(w) =>
      && w < |s.threads| && CellsOf(crypto, s.globals, s.threads[w])
      && forall t :: 0 <= t < |s.threads| && t != w ==> !Won(s.threads[t])
  }

  ghost predicate Inv(crypto: Functions, s: System, w: Option<nat>) {
    && Winner(crypto, s, w)
    && forall t :: 0 <= t < |s.threads| ==> ThreadOk(crypto, s.globals, s.threads[t])
  }

  /** A set cell is never set again and never changes. */
  predicate Grows(g: Globals, g': Globals) {
    && (g.params.Some? ==> g'.params == g.params)
    && (g.fingerprint.Some? ==> g'.fingerprint == g.fingerprint)
    && (g.vkId.Some? ==> g'.vkId == g.vkId)
  }

  function NextWinner(s: System, t: nat, w: Option<nat>): Option<nat> {
    if w.None? && t < |s.threads| && s.threads[t].Initialiser? && s.threads[t].ipc.SetParams? then Some(t) else w
  }

  /** A builder's answer does not depend on the two cells that only the report shows. */
  lemma GatesIgnoreReportedCells(crypto: Functions, params: Params, vkId: u32, fp: Option<string>, vk: Option<u32>,
                                 fp': Option<string>, vk': Option<u32>, cred: CredentialV2, qr: QrChallengePayload,
                                 now: u64)
    ensures Gates(crypto, params, vkId, fp, vk, cred, qr, now) == Gates(crypto, params, vkId, fp', vk', cred, qr, now)
  {
    hide Utf8, WitnessOf, GenerateProofSafe;
  }

  lemma OtherThreadsStayOk(crypto: Functions, g: Globals, g': Globals, th: Thread)
    requires ThreadOk(crypto, g, th) && Grows(g, g')
    ensures ThreadOk(crypto, g', th)
  {
    hide Gates;
    if th.Builder? && th.bpc.Answered? && th.bpc.answer != Err(NotInitialized) {
      GatesIgnoreReportedCells(crypto, g.params.value, g.vkId.value, g.fingerprint, g.vkId,
                               g'.fingerprint, g'.vkId, th.cred, th.qr, th.now);
    }
  }

  lemma InitStepKeeps(crypto: Functions, s: System, t: nat, w: Option<nat>)
    requires Inv(crypto, s, w) && t < |s.threads| && s.threads[t].Initialiser?
    ensures var s' := Step(crypto, s, t);
            && Grows(s.globals, s'.globals)
            && ThreadOk(crypto, s'.globals, s'.threads[t])
            && Winner(crypto, s', NextWinner(s, t, w))
  {
    var s' := Step(crypto, s, t);
    assert ThreadOk(crypto, s.globals, s.threads[t]);
    assert forall u :: 0 <= u < |s.threads| && u != t ==> s'.threads[u] == s.threads[u];
  }

  lemma StepKeeps(crypto: Functions, s: System, t: nat, w: Option<nat>)
    requires Inv(crypto, s, w)
    ensures Inv(crypto, Step(crypto, s, t), NextWinner(s, t, w))
    ensures Grows(s.globals, Step(crypto, s, t).globals)
    ensures |Step(crypto, s, t).threads| == |s.threads|
  {
    hide Gates;
    if t < |s.threads| {
      var s' := Step(crypto, s, t);
      if s.threads[t].Initialiser? {
        InitStepKeeps(crypto, s, t, w);
      } else {
        BuildStepKeeps(crypto, s, t, w);
      }
      forall u | 0 <= u < |s.threads| && u != t ensures ThreadOk(crypto, s'.globals, s'.threads[u]) {
        OtherThreadsStayOk(crypto, s.globals, s'.globals, s.threads[u]);
      }
    }
  }

  lemma BuildStepKeeps(crypto: Functions, s: System, t: nat, w: Option<nat>)
    requires Inv(crypto, s, w) && t < |s.threads| && s.threads[t].Builder?
    ensures var s' := Step(crypto, s, t);
            && s'.globals == s.globals
            && ThreadOk(crypto, s'.globals, s'.threads[t])
            && Winner(crypto, s', w)
  {
    hide Gates;
    assert ThreadOk(crypto, s.globals, s.threads[t]);
    var s' := Step(crypto, s, t);
    assert forall u :: 0 <= u < |s.threads| && u != t ==> s'.threads[u] == s.threads[u];
  }

  lemma {:induction false} RunKeeps(crypto: Functions, s0: System, schedule: seq<nat>) returns (w: Option<nat>)
    requires Initial(s0)
    ensures Inv(crypto, Run(crypto, s0, schedule), w)
    ensures |Run(crypto, s0, schedule).threads| == |s0.threads|
  {
    hide Gates, Step;
    if schedule == [] {
      w := None;
    } else {
      var shorter := schedule[..|schedule| - 1];
      var v := RunKeeps(crypto, s0, shorter);
      StepKeeps(crypto, Run(crypto, s0, shorter), schedule[|schedule| - 1], v);
      w := NextWinner(Run(crypto, s0, shorter), schedule[|schedule| - 1], v);
    }
  }

  // ----- What every interleaving guarantees -----

  /** In every reachable state the cells fill in order, and whatever is set comes from the
      bytes of one thread, the only one whose first `set` succeeded. */
  lemma CellsComeFromOneThread(crypto: Functions, s0: System, schedule: seq<nat>)
    requires Initial(s0)
    ensures var s := Run(crypto, s0, schedule);
            && (s.globals.vkId.Some? ==> s.globals.fingerprint.Some?)
            && (s.globals.fingerprint.Some? ==> s.globals.params.Some?)
            && (s.globals.params.Some? ==> exists w :: SetBy(crypto, s, w))
            && (s.globals.params.None? ==> forall t :: 0 <= t < |s.threads| ==> !Won(s.threads[t]))
  {
    hide Run;
    var w := RunKeeps(crypto, s0, schedule);
    var s := Run(crypto, s0, schedule);
    if w.Some? {
      assert SetBy(crypto, s, w.value);
    }
  }

  /** The set cells hold what the bytes of thread `w` give, and no other thread won. */
  ghost predicate SetBy(crypto: Functions, s: System, w: nat) {
    && w < |s.threads| && Won(s.threads[w])
    && s.globals.params.Some?
    && crypto.loadProvingKey(s.threads[w].pkBytes) == s.globals.params
    && (s.globals.fingerprint.Some? ==> s.globals.fingerprint == Some(crypto.fingerprint(s.threads[w].pkBytes)))
    && (s.globals.vkId.Some? ==> s.globals.vkId == Some(crypto.vkId(s.globals.params.value)))
    && forall t :: 0 <= t < |s.threads| && Won(s.threads[t]) ==> t == w
  }

  /** Cells are write-once: what a state shows, every later state shows. */
  lemma {:induction false} CellsNeverChange(crypto: Functions, s0: System, earlier: seq<nat>, later: seq<nat>)
    requires Initial(s0)
    ensures Grows(Run(crypto, s0, earlier).globals, Run(crypto, s0, earlier + later).globals)
  {
    hide Step, Inv;
    if later == [] {
      assert earlier + later == earlier;
    } else {
      var shorter := later[..|later| - 1];
      CellsNeverChange(crypto, s0, earlier, shorter);
      var w := RunKeeps(crypto, s0, earlier + shorter);
      StepKeeps(crypto, Run(crypto, s0, earlier + shorter), later[|later| - 1], w);
      assert (earlier + later)[..|earlier + later| - 1] == earlier + shorter;
    }
  }

  /** `AlreadyInitialized` can only come from the first `set`: whoever passes it sets the
      other two cells without contest, and no two threads return from a completed
      initialisation. */
  lemma OnlyFirstSetFails(crypto: Functions, s0: System, schedule: seq<nat>, a: nat, b: nat)
    requires Initial(s0) && a < |s0.threads| && b < |s0.threads|
    ensures var s := Run(crypto, s0, schedule);
            && |s.threads| == |s0.threads|
            && (forall cell :: s.threads[a].Initialiser? && s.threads[a].ipc == Returned(AlreadySet(cell)) ==>
                              cell == ParamsCell)
            && (Won(s.threads[a]) && Won(s.threads[b]) ==> a == b)
  {
    hide Run;
    var w := RunKeeps(crypto, s0, schedule);
    assert ThreadOk(crypto, Run(crypto, s0, schedule).globals, Run(crypto, s0, schedule).threads[a]);
  }

  // ----- Completion -----

  predicate Done(th: Thread) {
    match th
    case Initialiser(_, pc) => pc.Returned?
    case Builder(_, _, _, pc) => pc.Answered?
  }

  function StepsLeft(th: Thread): nat {
    match th
    case Initialiser(_, pc) =>
      (match pc
       case Check => 5
       case Load => 4
       case SetParams(_) => 3
       case SetFingerprint(_) => 2
       case SetVkId(_) => 1
       case Returned(_) => 0)
    case Builder(_, _, _, pc) =>
      (match pc
       case ReadParams => 3
       case ReadVkId(_) => 2
       case RunGates(_, _) => 1
       case Answered(_) => 0)
  }

  function OwnSteps(schedule: seq<nat>, t: nat): nat {
    if schedule == [] then 0
    else OwnSteps(schedule[..|schedule| - 1], t) + if schedule[|schedule| - 1] == t then 1 else 0
  }

  lemma StepMakesProgress(crypto: Functions, s: System, t: nat, u: nat)
    requires u < |s.threads|
    ensures var s' := Step(crypto, s, t);
            && |s'.threads| == |s.threads|
            && (u != t ==> s'.threads[u] == s.threads[u])
            && (u == t && !Done(s.threads[u]) ==> StepsLeft(s'.threads[u]) < StepsLeft(s.threads[u]))
            && (u == t && Done(s.threads[u]) ==> s'.threads[u] == s.threads[u])
            && (Done(s.threads[u]) <==> StepsLeft(s.threads[u]) == 0)
  {
    hide Gates;
  }

  /** No thread waits for another: five steps of its own finish any call, whatever the
      other threads do in between. */
  lemma {:induction false} FiveOwnStepsFinish(crypto: Functions, s0: System, schedule: seq<nat>, t: nat)
    requires Initial(s0) && t < |s0.threads|
    ensures var s := Run(crypto, s0, schedule);
            && |s.threads| == |s0.threads|
            && StepsLeft(s.threads[t]) <= (if OwnSteps(schedule, t) < 5 then 5 - OwnSteps(schedule, t) else 0)
            && (OwnSteps(schedule, t) >= 5 ==> Done(s.threads[t]))
  {
    hide Step;
    if schedule != [] {
      var shorter := schedule[..|schedule| - 1];
      FiveOwnStepsFinish(crypto, s0, shorter, t);
      StepMakesProgress(crypto, Run(crypto, s0, shorter), schedule[|schedule| - 1], t);
    }
  }

  /** When all calls have returned, either no key was loadable and no cell is set, or all
      three cells are set and exactly one initialiser completed the initialisation. */
  lemma FinalStates(crypto: Functions, s0: System, schedule: seq<nat>)
    requires Initial(s0)
    requires forall t :: 0 <= t < |Run(crypto, s0, schedule).threads| ==> Done(Run(crypto, s0, schedule).threads[t])
    ensures var s := Run(crypto, s0, schedule);
            if exists t :: 0 <= t < |s.threads| && s.threads[t].Initialiser?
                           && crypto.loadProvingKey(s.threads[t].pkBytes).Some?
            then s.globals.params.Some? && s.globals.fingerprint.Some? && s.globals.vkId.Some?
                 && exists w: nat :: SetBy(crypto, s, w) && s.threads[w].ipc == Returned(Initialised)
            else s.globals == EMPTY
  {
    hide Run, Gates;
    var w := RunKeeps(crypto, s0, schedule);
    var s := Run(crypto, s0, schedule);
    if w.Some? {
      assert SetBy(crypto, s, w.value) && s.threads[w.value].ipc == Returned(Initialised);
    } else {
      forall t | 0 <= t < |s.threads| && s.threads[t].Initialiser?
        ensures crypto.loadProvingKey(s.threads[t].pkBytes).None?
      {
        assert ThreadOk(crypto, s.globals, s.threads[t]) && !Won(s.threads[t]);
      }
    }
  }

  // ----- What an initialiser returns -----

  /** Where in the schedule thread `t` takes its step number `k`, counted from 0. */
  function Turn(schedule: seq<nat>, t: nat, k: nat): (i: nat)
    requires k < OwnSteps(schedule, t)
    ensures i < |schedule|
  {
    var n := |schedule| - 1;
    if k < OwnSteps(schedule[..n], t) then Turn(schedule[..n], t, k) else n
  }

  /** The parameters cell is set when thread `t` is about to take its step number `k`. */
  predicate SetAtTurn(crypto: Functions, s0: System, schedule: seq<nat>, t: nat, k: nat)
    requires k < OwnSteps(schedule, t)
  {
    Run(crypto, s0, schedule[..Turn(schedule, t, k)]).globals.params.Some?
  }

  lemma EarlierTurn(crypto: Functions, s0: System, schedule: seq<nat>, t: nat, k: nat)
    requires schedule != [] && k < OwnSteps(schedule[..|schedule| - 1], t)
    ensures k < OwnSteps(schedule, t)
    ensures SetAtTurn(crypto, s0, schedule, t, k) == SetAtTurn(crypto, s0, schedule[..|schedule| - 1], t, k)
  {
    hide Run;
    var n := |schedule| - 1;
    assert schedule[..n][..Turn(schedule[..n], t, k)] == schedule[..Turn(schedule, t, k)];
  }

  lemma LastTurn(crypto: Functions, s0: System, schedule: seq<nat>, t: nat)
    requires schedule != [] && schedule[|schedule| - 1] == t
    ensures OwnSteps(schedule, t) == OwnSteps(schedule[..|schedule| - 1], t) + 1
    ensures SetAtTurn(crypto, s0, schedule, t, OwnSteps(schedule, t) - 1)
            == Run(crypto, s0, schedule[..|schedule| - 1]).globals.params.Some?
  {
    hide Run;
  }

  /** Where initialiser `t` stands is decided by how many steps it has taken, whether its
      key loads, and whether the parameters cell was set at its first and third step. */
  function PcAfter(crypto: Functions, s0: System, schedule: seq<nat>, t: nat, pkBytes: Bytes): InitPc {
    var m, key := OwnSteps(schedule, t), crypto.loadProvingKey(pkBytes);
    if m == 0 then Check
    else if SetAtTurn(crypto, s0, schedule, t, 0) then Returned(Skipped)
    else if m == 1 then Load
    else if key.None? then Returned(BadKey)
    else if m == 2 then SetParams(key.value)
    else if SetAtTurn(crypto, s0, schedule, t, 2) then Returned(AlreadySet(ParamsCell))
    else if m == 3 then SetFingerprint(key.value)
    else if m == 4 then SetVkId(key.value)
    else Returned(Initialised)
  }

  lemma {:induction false} InitialiserProgress(crypto: Functions, s0: System, schedule: seq<nat>, t: nat)
    requires Initial(s0) && t < |s0.threads| && s0.threads[t].Initialiser?
    ensures var s, pkBytes := Run(crypto, s0, schedule), s0.threads[t].pkBytes;
            && |s.threads| == |s0.threads|
            && s.threads[t] == Initialiser(pkBytes, PcAfter(crypto, s0, schedule, t, pkBytes))
  {
    hide Step, Gates, SetAtTurn;
    if schedule != [] {
      var n := |schedule| - 1;
      var before := Run(crypto, s0, schedule[..n]);
      InitialiserProgress(crypto, s0, schedule[..n], t);
      var w := RunKeeps(crypto, s0, schedule[..n]);
      if 0 < OwnSteps(schedule[..n], t) {
        EarlierTurn(crypto, s0, schedule, t, 0);
      }
      if 2 < OwnSteps(schedule[..n], t) {
        EarlierTurn(crypto, s0, schedule, t, 2);
      }
      if schedule[n] == t {
        LastTurn(crypto, s0, schedule, t);
        OwnInitStep(crypto, before, t, w);
      } else {
        StepMakesProgress(crypto, before, schedule[n], t);
      }
    }
  }

  /** One own step of an initialiser: its contested `set` fails exactly when the
      parameters cell is set, and its later ones never do. */
  lemma OwnInitStep(crypto: Functions, s: System, t: nat, w: Option<nat>)
    requires Inv(crypto, s, w) && t < |s.threads| && s.threads[t].Initialiser?
    ensures var (s', th) := (Step(crypto, s, t), s.threads[t]);
            && |s'.threads| == |s.threads|
            && s'.threads[t].Initialiser? && s'.threads[t].pkBytes == th.pkBytes
            && s'.threads[t].ipc ==
               match th.ipc
               case Check => if s.globals.params.Some? then Returned(Skipped) else Load
               case Load =>
                 (match crypto.loadProvingKey(th.pkBytes) case None => Returned(BadKey) case Some(p) => SetParams(p))
               case SetParams(p) =>
                 if s.globals.params.Some? then Returned(AlreadySet(ParamsCell)) else SetFingerprint(p)
               case SetFingerprint(p) => SetVkId(p)
               case SetVkId(_) => Returned(Initialised)
               case Returned(_) => th.ipc
  {
    hide Gates, ThreadOk;
  }

  /** Which of the four outcomes an initialiser returns with, over every run: `Skipped`
      exactly when the cell was set at its first step; `AlreadyInitialized` exactly when
      the cell was empty then, its key loads, and another thread had set the cell by the
      time of its own `set`. */
  lemma InitialiserOutcomes(crypto: Functions, s0: System, schedule: seq<nat>, t: nat, outcome: Outcome)
    requires Initial(s0) && t < |s0.threads| && s0.threads[t].Initialiser?
    ensures var s, m := Run(crypto, s0, schedule), OwnSteps(schedule, t);
            var key := crypto.loadProvingKey(s0.threads[t].pkBytes);
            && |s.threads| == |s0.threads| && s.threads[t].Initialiser?
            && (s.threads[t].ipc == Returned(outcome) <==>
                  match outcome
                  case Skipped => m >= 1 && SetAtTurn(crypto, s0, schedule, t, 0)
                  case BadKey => m >= 2 && !SetAtTurn(crypto, s0, schedule, t, 0) && key.None?
                  case AlreadySet(cell) =>
                    && m >= 3 && !SetAtTurn(crypto, s0, schedule, t, 0) && key.Some?
                    && SetAtTurn(crypto, s0, schedule, t, 2) && cell == ParamsCell
                  case Initialised =>
                    && m >= 5 && !SetAtTurn(crypto, s0, schedule, t, 0) && key.Some?
                    && !SetAtTurn(crypto, s0, schedule, t, 2))
    ensures (ReturnValue(outcome) == Err(AlreadyInitialized) <==> outcome.AlreadySet?)
            && (ReturnValue(outcome) == Err(InvalidProvingKey) <==> outcome == BadKey)
            && (ReturnValue(outcome) == Ok(()) <==> outcome == Skipped || outcome == Initialised)
  {
    hide Run, SetAtTurn;
    InitialiserProgress(crypto, s0, schedule, t);
  }

  /** An initialiser that begins once the parameters are set never fails: in every
      continuation it is still to begin or has returned `Ok(())` at once. */
  lemma {:induction false} LateInitialiserOnlySkips(crypto: Functions, s0: System, earlier: seq<nat>, later: seq<nat>,
                                                    t: nat)
    requires Initial(s0) && t < |s0.threads| && s0.threads[t].Initialiser?
    requires var s := Run(crypto, s0, earlier);
             s.globals.params.Some? && t < |s.threads| && s.threads[t] == Initialiser(s0.threads[t].pkBytes, Check)
    ensures var s := Run(crypto, s0, earlier + later);
            && t < |s.threads|
            && s.threads[t] in {Initialiser(s0.threads[t].pkBytes, Check),
                                Initialiser(s0.threads[t].pkBytes, Returned(Skipped))}
  {
    hide Run, Step, Gates;
    if later == [] {
      assert earlier + later == earlier;
    } else {
      var shorter, u := later[..|later| - 1], later[|later| - 1];
      LateInitialiserOnlySkips(crypto, s0, earlier, shorter, t);
      CellsNeverChange(crypto, s0, earlier, shorter);
      RunOneMore(crypto, s0, earlier + shorter, u);
      assert earlier + later == earlier + shorter + [u];
      var w := RunKeeps(crypto, s0, earlier + shorter);
      var s := Run(crypto, s0, earlier + shorter);
      StepMakesProgress(crypto, s, u, t);
      if u == t {
        OwnInitStep(crypto, s, t, w);
      }
    }
  }

  // ----- When the prover counts as initialised -----

  /** `is_prover_initialized` looks at the first cell alone. */
  predicate IsProverInitialized(g: Globals) {
    g.params.Some?
  }

  /** It is true too early: between its first and third `set` the winner has not finished,
      and a builder fails. The prover is ready exactly when the winner has returned. */
  lemma ReadyExactlyWhenWinnerReturned(crypto: Functions, s0: System, schedule: seq<nat>)
    requires Initial(s0)
    ensures var s := Run(crypto, s0, schedule);
            && (s.globals.vkId.Some? <==> exists w :: 0 <= w < |s.threads| && s.threads[w].Initialiser?
                                                      && s.threads[w].ipc == Returned(Initialised))
            && (IsProverInitialized(s.globals) && s.globals.vkId.None? <==>
                  exists w :: 0 <= w < |s.threads| && s.threads[w].Initialiser?
                              && (s.threads[w].ipc.SetFingerprint? || s.threads[w].ipc.SetVkId?))
            && (IsProverInitialized(s.globals) <==> exists w :: 0 <= w < |s.threads| && Won(s.threads[w]))
            && (s.globals.vkId.Some? ==> IsProverInitialized(s.globals))
  {
    hide Run;
    var w := RunKeeps(crypto, s0, schedule);
  }

  /** A concrete run in which an initialiser returns `Ok(())` and a request builder that
      starts afterwards is still refused as not initialised. */
  lemma OkBeforeReady(crypto: Functions, key: Bytes, cred: CredentialV2, qr: QrChallengePayload, now: u64)
    requires crypto.loadProvingKey(key).Some?
    ensures var params := crypto.loadProvingKey(key).value;
            var s0 := System(EMPTY, [Initialiser(key, Check), Initialiser(key, Check),
                                     Builder(cred, qr, now, ReadParams)]);
            var half := Globals(Some(params), None, None);
            && Initial(s0)
            && ReturnValue(Skipped) == Ok(())
            && Run(crypto, s0, [0, 0, 0, 1])
               == System(half, [Initialiser(key, SetFingerprint(params)), Initialiser(key, Returned(Skipped)),
                                Builder(cred, qr, now, ReadParams)])
            && Run(crypto, s0, [0, 0, 0, 1] + [2, 2])
               == System(half, [Initialiser(key, SetFingerprint(params)), Initialiser(key, Returned(Skipped)),
                                Builder(cred, qr, now, Answered(Err(NotInitialized)))])
  {
    hide Gates;
    var params := crypto.loadProvingKey(key).value;
    var idle := Builder(cred, qr, now, ReadParams);
    var waiting, skipped := Initialiser(key, Check), Initialiser(key, Returned(Skipped));
    var half := Globals(Some(params), None, None);
    var ahead := Initialiser(key, SetFingerprint(params));
    var s0 := System(EMPTY, [waiting, waiting, idle]);
    var s3 := System(half, [ahead, waiting, idle]);
    var s4 := System(half, [ahead, skipped, idle]);
    OwnThreeSteps(crypto, s0, key);
    RunOneMore(crypto, s0, [0, 0, 0], 1);
    assert Step(crypto, s3, 1) == s4;
    RunOneMore(crypto, s0, [0, 0, 0, 1], 2);
    RunOneMore(crypto, s0, [0, 0, 0, 1, 2], 2);
    assert [0, 0, 0] + [1] == [0, 0, 0, 1] && [0, 0, 0, 1] + [2] == [0, 0, 0, 1, 2];
    assert [0, 0, 0, 1] + [2, 2] == [0, 0, 0, 1, 2] + [2];
    TwoBuilderSteps(crypto, s4, 2);
  }

  /** Alone, an initialiser with a loadable key has set the parameters after three steps. */
  lemma OwnThreeSteps(crypto: Functions, s: System, key: Bytes)
    requires crypto.loadProvingKey(key).Some? && s.globals == EMPTY
    requires |s.threads| > 0 && s.threads[0] == Initialiser(key, Check)
    ensures var params := crypto.loadProvingKey(key).value;
            Run(crypto, s, [0, 0, 0])
            == System(Globals(Some(params), None, None), s.threads[0 := Initialiser(key, SetFingerprint(params))])
  {
    hide Gates;
    var params := crypto.loadProvingKey(key).value;
    RunOneMore(crypto, s, [], 0);
    RunOneMore(crypto, s, [0], 0);
    RunOneMore(crypto, s, [0, 0], 0);
    assert [] + [0] == [0] && [0] + [0] == [0, 0] && [0, 0] + [0] == [0, 0, 0];
    assert Run(crypto, s, [0]) == System(EMPTY, s.threads[0 := Initialiser(key, Load)]);
    assert Run(crypto, s, [0, 0]) == System(EMPTY, s.threads[0 := Initialiser(key, SetParams(params))]);
  }

  /** Two steps of a builder between the first and the third `set` end in a refusal. */
  lemma TwoBuilderSteps(crypto: Functions, s: System, b: nat)
    requires s.globals.params.Some? && s.globals.vkId.None?
    requires b < |s.threads| && s.threads[b].Builder? && s.threads[b].bpc == ReadParams
    ensures Step(crypto, Step(crypto, s, b), b)
            == s.(threads := s.threads[b := s.threads[b].(bpc := Answered(Err(NotInitialized)))])
  {
    hide Gates;
  }

  lemma RunOneMore(crypto: Functions, s: System, schedule: seq<nat>, t: nat)
    ensures Run(crypto, s, schedule + [t]) == Step(crypto, Run(crypto, s, schedule), t)
  {
    assert (schedule + [t])[..|schedule + [t]| - 1] == schedule;
  }

  lemma GatesNeverUninitialised(crypto: Functions, params: Params, vkId: u32, fp: Option<string>, vk: Option<u32>,
                                cred: CredentialV2, qr: QrChallengePayload, now: u64)
    ensures Gates(crypto, params, vkId, fp, vk, cred, qr, now) != Err(NotInitialized)
  {
  }

  /** Once an initialisation has completed, no builder that has not read the cells yet is
      ever refused as not initialised. */
  lemma {:induction false} ReadyForLaterBuilders(crypto: Functions, s0: System, earlier: seq<nat>, later: seq<nat>,
                                                 b: nat)
    requires Initial(s0) && b < |s0.threads|
    requires var s := Run(crypto, s0, earlier);
             && s.globals.vkId.Some?
             && b < |s.threads| && s.threads[b].Builder? && s.threads[b].bpc == ReadParams
    ensures var s := Run(crypto, s0, earlier + later);
            && b < |s.threads| && s.threads[b].Builder?
            && s.threads[b].bpc != Answered(Err(NotInitialized))
  {
    hide Run, Gates;
    if later == [] {
      assert earlier + later == earlier;
    } else {
      var shorter, t := later[..|later| - 1], later[|later| - 1];
      ReadyForLaterBuilders(crypto, s0, earlier, shorter, b);
      CellsNeverChange(crypto, s0, earlier, shorter);
      CellsComeFromOneThread(crypto, s0, earlier + shorter);
      RunOneMore(crypto, s0, earlier + shorter, t);
      assert earlier + later == earlier + shorter + [t];
      StillReady(crypto, Run(crypto, s0, earlier + shorter), t, b);
    }
  }

  lemma StillReady(crypto: Functions, s: System, t: nat, b: nat)
    requires s.globals.vkId.Some? && s.globals.params.Some?
    requires b < |s.threads| && s.threads[b].Builder? && s.threads[b].bpc != Answered(Err(NotInitialized))
    ensures var s' := Step(crypto, s, t);
            b < |s'.threads| && s'.threads[b].Builder? && s'.threads[b].bpc != Answered(Err(NotInitialized))
  {
    hide Gates;
    if t == b && s.threads[b].bpc.RunGates? {
      GatesNeverUninitialised(crypto, s.threads[b].bpc.params, s.threads[b].bpc.vkId, s.globals.fingerprint,
                              s.globals.vkId,
                              s.threads[b].cred, s.threads[b].qr, s.threads[b].now);
    }
  }

  // ----- Requests built under any interleaving -----

  /** `req` rests on key bytes `key`: they are the ones the challenge asks for, the
      credential and the challenge meet every condition at `now`, and the proof was made
      with that key for that challenge. */
  ghost predicate Backed(crypto: Functions, key: Bytes, cred: CredentialV2, qr: QrChallengePayload, now: u64,
                         req: SubmitProofRequest)
  {
    exists params, p ::
      && crypto.loadProvingKey(key) == Some(params)
      && crypto.vkId(params) == qr.verifyingKeyId == req.proof.verifyingKeyId
      && Presentable(crypto, cred, qr, now)
      && ValidateAge(cred.dobDays.value, qr.cutoffDays, IsUnderAge(qr))
      && FitsCircuit(cred)
      && Delivers(crypto, JobFor(params, cred, qr), p)
      && p.cutoff == qr.cutoffDays && req == RequestFor(qr, p)
  }

  lemma AnswerIsGatesWithSetCells(crypto: Functions, s0: System, schedule: seq<nat>, b: nat) returns (w: nat)
    requires Initial(s0) && b < |s0.threads|
    requires var s := Run(crypto, s0, schedule);
             b < |s.threads| && s.threads[b].Builder? && s.threads[b].bpc.Answered?
             && s.threads[b].bpc.answer != Err(NotInitialized)
    ensures var s := Run(crypto, s0, schedule);
            && SetBy(crypto, s, w) && s.globals.vkId == Some(crypto.vkId(s.globals.params.value))
            && s.threads[b].bpc.answer
               == Gates(crypto, s.globals.params.value, s.globals.vkId.value, s.globals.fingerprint, s.globals.vkId,
                        s.threads[b].cred, s.threads[b].qr, s.threads[b].now)
  {
    hide Run, Gates;
    var v := RunKeeps(crypto, s0, schedule);
    assert ThreadOk(crypto, Run(crypto, s0, schedule).globals, Run(crypto, s0, schedule).threads[b]);
    w := v.value;
  }

  /** In every reachable state a builder that has read both cells holds the winner's
      parameters and their own vk_id; and every answer past the two reads, a refusal or a
      failed proof as much as a request, is that of the gates with this pair. */
  lemma {:induction false} PastTheReadsUsesWinnersPair(crypto: Functions, s0: System, schedule: seq<nat>, b: nat)
    requires Initial(s0) && b < |s0.threads|
    ensures var s := Run(crypto, s0, schedule);
            && |s.threads| == |s0.threads|
            && (s.threads[b].Builder? && s.threads[b].bpc.RunGates? ==>
                  exists w: nat :: && SetBy(crypto, s, w)
                                   && crypto.loadProvingKey(s.threads[w].pkBytes) == Some(s.threads[b].bpc.params)
                                   && s.threads[b].bpc.vkId == crypto.vkId(s.threads[b].bpc.params))
            && (s.threads[b].Builder? && s.threads[b].bpc.Answered?
                && s.threads[b].bpc.answer != Err(NotInitialized) ==>
                  exists w: nat :: SetBy(crypto, s, w) && IsGatesWith(crypto, s, b, s.globals.params.value))
  {
    hide Run, Gates;
    var w := RunKeeps(crypto, s0, schedule);
    var s := Run(crypto, s0, schedule);
    assert ThreadOk(crypto, s.globals, s.threads[b]);
    if w.Some? {
      assert SetBy(crypto, s, w.value);
    }
    if s.threads[b].Builder? && s.threads[b].bpc.Answered? && s.threads[b].bpc.answer != Err(NotInitialized) {
      var v := AnswerIsGatesWithSetCells(crypto, s0, schedule, b);
      assert SetBy(crypto, s, v) && IsGatesWith(crypto, s, b, s.globals.params.value);
    }
  }

  /** Builder `b` answered what the gates say with `params` and their own vk_id. */
  ghost predicate IsGatesWith(crypto: Functions, s: System, b: nat, params: Params)
    requires b < |s.threads| && s.threads[b].Builder? && s.threads[b].bpc.Answered?
  {
    s.threads[b].bpc.answer
    == Gates(crypto, params, crypto.vkId(params), s.globals.fingerprint, s.globals.vkId,
             s.threads[b].cred, s.threads[b].qr, s.threads[b].now)
  }

  /** Whatever the interleaving, a request that was built rests on the key bytes of the one
      initialiser that won, and on no other. */
  lemma {:induction false} BuiltRequestUsesWinnersKey(crypto: Functions, s0: System, schedule: seq<nat>, b: nat,
                                                      req: SubmitProofRequest)
    requires Initial(s0) && b < |s0.threads|
    requires var s := Run(crypto, s0, schedule);
             b < |s.threads| && s.threads[b].Builder? && s.threads[b].bpc == Answered(Ok(req))
    ensures var s := Run(crypto, s0, schedule);
            exists w: nat :: SetBy(crypto, s, w)
                        && Backed(crypto, s.threads[w].pkBytes, s.threads[b].cred, s.threads[b].qr, s.threads[b].now,
                                  req)
  {
    hide Run, Gates, Presentable, FitsCircuit, Delivers, JobFor;
    var w := AnswerIsGatesWithSetCells(crypto, s0, schedule, b);
    var s := Run(crypto, s0, schedule);
    var th, params := s.threads[b], s.globals.params.value;
    RequestBuiltExactlyWhen(crypto, params, s.globals.vkId.value, s.globals.fingerprint, s.globals.vkId,
                            th.cred, th.qr, th.now, req);
    assert Backed(crypto, s.threads[w].pkBytes, th.cred, th.qr, th.now, req);
  }
}
