/** The request server of libjl777/jl777hash.h: clients enqueue packets and poll a flag, one server
    thread drains the search queue and the add queue in turn. A run is any interleaving of the steps
    below; the queues are first-in first-out and the table is the map it refines. */
module HashServer {
  import HashTable

  datatype Kind = Find | Add
  datatype Phase = Queued | Running | Done | Freed

  /** result is the object of the key, if there is one; created is what *createdflagp receives. */
  datatype Answer = Answer(result: int, created: bool)
  datatype Request = Request(kind: Kind, key: string)
  datatype Packet = Packet(request: Request, phase: Phase, answer: Answer)

  const NO_OBJECT := -1

  datatype Table = Table(objects: map<string, nat>, nextId: nat, keysize: nat)

  /** The key a request is about: the table replaces an illegal key when it adds, not when it searches. */
  function KeyOf(r: Request, keysize: nat): string {
    if r.kind == Add then HashTable.EffectiveKey(r.key, keysize) else r.key
  }

  /** What add_hashtable and search_hashtable do to the map. */
  function Execute(t: Table, r: Request): (result: (Table, Answer))
    ensures result.0.keysize == t.keysize
  {
    var key := KeyOf(r, t.keysize);
    match r.kind
    case Find => (t, Answer(if key in t.objects then t.objects[key] else NO_OBJECT, false))
    case Add =>
      if key in t.objects then (t, Answer(t.objects[key], false))
      else (Table(t.objects[key := t.nextId], t.nextId + 1, t.keysize), Answer(t.nextId, true))
  }

  datatype Server = Idle(iter: Kind) | Holding(iter: Kind, pid: nat, executed: bool)

  /** One sequence of packets for each queue. */
  datatype PerQueue = PerQueue(find: seq<nat>, add: seq<nat>) {
    function Get(k: Kind): seq<nat> { if k == Find then find else add }

    function Set(k: Kind, q: seq<nat>): (r: PerQueue)
      ensures r.Get(k) == q && forall j | j != k :: r.Get(j) == Get(j)
    {
      if k == Find then PerQueue(q, add) else PerQueue(find, q)
    }
  }

  /** log lists the packets in the order in which the server executed them; issued lists, for each
      queue, the packets in the order in which clients enqueued them. */
  datatype State = State(table: Table, packets: map<nat, Packet>, queues: PerQueue, server: Server,
                         log: seq<nat>, issued: PerQueue)

  datatype Step =
    | Enqueue(pid: nat, request: Request)
    | Dequeue
    | NextQueue
    | Run
    | SetDone
    | Collect(pid: nat)

  function Initial(t: Table): State {
    State(t, map[], PerQueue([], []), Idle(Find), [], PerQueue([], []))
  }

  function SetPhase(s: State, pid: nat, phase: Phase): State
    requires pid in s.packets
  {
    s.(packets := s.packets[pid := s.packets[pid].(phase := phase)])
  }

  /** A client may issue a packet it just allocated and collect one whose flag is set; the server
      takes its steps in program order. */
  predicate Enabled(s: State, step: Step) {
    match step
    case Enqueue(pid, request) => pid !in s.packets
    case Dequeue => s.server.Idle? && s.queues.Get(s.server.iter) != []
    case NextQueue => s.server.Idle? && s.queues.Get(s.server.iter) == []
    case Run => s.server.Holding? && !s.server.executed && s.server.pid in s.packets
    case SetDone => s.server.Holding? && s.server.executed && s.server.pid in s.packets
    case Collect(pid) => pid in s.packets && s.packets[pid].phase == Done
  }

  function Take(s: State, step: Step): State
    requires Enabled(s, step)
  {
    match step
    case Enqueue(pid, request) =>
      s.(packets := s.packets[pid := Packet(request, Queued, Answer(0, false))],
         queues := s.queues.Set(request.kind, s.queues.Get(request.kind) + [pid]),
         issued := s.issued.Set(request.kind, s.issued.Get(request.kind) + [pid]))
    case Dequeue =>
      var k := s.server.iter;
      var pid := s.queues.Get(k)[0];
      var s1 := s.(queues := s.queues.Set(k, s.queues.Get(k)[1..]), server := Holding(k, pid, false));
      if pid in s.packets then SetPhase(s1, pid, Running) else s1
    case NextQueue => s.(server := Idle(if s.server.iter == Find then Add else Find))
    case Run =>
      var pid := s.server.pid;
      var (t, answer) := Execute(s.table, s.packets[pid].request);
      s.(table := t, packets := s.packets[pid := s.packets[pid].(answer := answer)],
         server := s.server.(executed := true), log := s.log + [pid])
    case SetDone => SetPhase(s, s.server.pid, Done).(server := Idle(s.server.iter))
    case Collect(pid) => SetPhase(s, pid, Freed)
  }

  // ----- the sequential reference -----

  /** The table after running requests one after the other. */
  function Replay(t: Table, requests: seq<Request>): (r: Table)
    ensures r.keysize == t.keysize
  {
    if requests == [] then t else Execute(Replay(t, requests[..|requests| - 1]), requests[|requests| - 1]).0
  }

  /** The answer request i gets in that run. */
  function AnswerAt(t: Table, requests: seq<Request>, i: nat): Answer
    requires i < |requests|
  {
    Execute(Replay(t, requests[..i]), requests[i]).1
  }

  function Requests(s: State, pids: seq<nat>): seq<Request>
    requires forall p | p in pids :: p in s.packets
  {
    seq(|pids|, i requires 0 <= i < |pids| => assert pids[i] in pids; s.packets[pids[i]].request)
  }

  // ----- the invariant -----

  predicate Distinct(pids: seq<nat>) { forall i, j | 0 <= i < j < |pids| :: pids[i] != pids[j] }

  /** Every packet the server or a queue can reach is alive and in the right phase. */
  predicate PacketsAlive(s: State) {
    && (forall k: Kind, i | 0 <= i < |s.queues.Get(k)| :: InPhase(s, s.queues.Get(k)[i], Queued, k))
    && (s.server.Holding? ==> InPhase(s, s.server.pid, Running, s.server.iter))
    && (forall p | p in s.packets :: s.packets[p].phase == Running ==> s.server.Holding? && s.server.pid == p)
    && (forall k: Kind :: Distinct(s.queues.Get(k)))
  }

  predicate InPhase(s: State, p: nat, phase: Phase, k: Kind) {
    p in s.packets && s.packets[p].phase == phase && s.packets[p].request.kind == k
  }

  /** A packet is in the log exactly when it has been executed, and then once. */
  predicate ExecutedOnce(s: State) {
    && Distinct(s.log)
    && (forall p | p in s.log :: p in s.packets)
    && (forall p | p in s.packets ::
          p in s.log <==>
          || s.packets[p].phase in {Done, Freed}
          || (s.packets[p].phase == Running && s.server.Holding? && s.server.executed))
  }

  /** Table and answers are those of the sequential run in log order. */
  predicate Sequential(t0: Table, s: State)
    requires forall p | p in s.log :: p in s.packets
  {
    && s.table == Replay(t0, Requests(s, s.log))
    && forall i | 0 <= i < |s.log| :: s.log[i] in s.log
        && s.packets[s.log[i]].answer == AnswerAt(t0, Requests(s, s.log), i)
  }

  /** The packets of one kind among those executed. */
  function Executed(s: State, log: seq<nat>, k: Kind): seq<nat>
    requires forall p | p in log :: p in s.packets
  {
    if log == [] then []
    else
      var last := log[|log| - 1];
      Executed(s, log[..|log| - 1], k) + (if s.packets[last].request.kind == k then [last] else [])
  }

  function Pending(s: State, k: Kind): seq<nat> {
    if s.server.Holding? && s.server.iter == k && !s.server.executed then [s.server.pid] else []
  }

  /** Each queue is served in the order in which it was filled. */
  predicate InOrder(s: State)
    requires forall p | p in s.log :: p in s.packets
  {
    forall k: Kind :: s.issued.Get(k) == Executed(s, s.log, k) + Pending(s, k) + s.queues.Get(k)
  }

  predicate Inv(t0: Table, s: State) {
    PacketsAlive(s) && ExecutedOnce(s) && Sequential(t0, s) && InOrder(s)
  }

  lemma InitialInv(t: Table)
    ensures Inv(t, Initial(t))
  { }

  // ----- each part of the invariant is kept by each step -----

  lemma AliveEnqueue(s: State, pid: nat, request: Request)
    requires PacketsAlive(s) && pid !in s.packets
    ensures PacketsAlive(Take(s, Enqueue(pid, request)))
  {
    var s' := Take(s, Enqueue(pid, request));
    forall k: Kind ensures Distinct(s'.queues.Get(k)) && forall i | 0 <= i < |s'.queues.Get(k)| ::
              InPhase(s', s'.queues.Get(k)[i], Queued, k) {
      var q, q' := s.queues.Get(k), s'.queues.Get(k);
      forall i | 0 <= i < |q'| ensures InPhase(s', q'[i], Queued, k) && (i < |q| ==> q'[i] != pid) {
        assert i < |q| ==> InPhase(s, q[i], Queued, k);
      }
    }
  }

  lemma AliveDequeue(s: State)
    requires PacketsAlive(s) && Enabled(s, Dequeue)
    ensures PacketsAlive(Take(s, Dequeue))
  {
    var s' := Take(s, Dequeue);
    var q := s.queues.Get(s.server.iter);
    assert InPhase(s, q[0], Queued, s.server.iter);
    forall k: Kind ensures Distinct(s'.queues.Get(k)) && forall i | 0 <= i < |s'.queues.Get(k)| ::
              InPhase(s', s'.queues.Get(k)[i], Queued, k) {
      if k == s.server.iter {
        forall i | 0 < i < |q| ensures InPhase(s', q[i], Queued, k) {
          assert InPhase(s, q[i], Queued, k);
        }
      } else {
        forall i | 0 <= i < |s.queues.Get(k)| ensures InPhase(s', s.queues.Get(k)[i], Queued, k) {
          assert InPhase(s, s.queues.Get(k)[i], Queued, k);
        }
      }
    }
  }

  lemma AliveStep(s: State, step: Step)
    requires PacketsAlive(s) && Enabled(s, step)
    ensures PacketsAlive(Take(s, step))
  {
    hide Execute, Distinct;
    match step {
      case Enqueue(pid, request) => AliveEnqueue(s, pid, request);
      case Dequeue => AliveDequeue(s);
      case _ =>
    }
  }

  lemma OnceStep(s: State, step: Step)
    requires PacketsAlive(s) && ExecutedOnce(s) && Enabled(s, step)
    ensures ExecutedOnce(Take(s, step))
  {
    hide Execute;
    if step.Dequeue? {
      assert InPhase(s, s.queues.Get(s.server.iter)[0], Queued, s.server.iter);
    }
  }

  /** A step that leaves the log alone leaves the requests and answers of logged packets alone. */
  lemma LoggedKept(s: State, step: Step, p: nat)
    requires PacketsAlive(s) && ExecutedOnce(s) && Enabled(s, step) && p in s.log
    ensures p in Take(s, step).packets && Take(s, step).packets[p].request == s.packets[p].request
    ensures Take(s, step).packets[p].answer == s.packets[p].answer
  {
    hide Execute, Distinct;
    if step.Dequeue? {
      assert InPhase(s, s.queues.Get(s.server.iter)[0], Queued, s.server.iter);
    }
  }

  lemma RunSequential(t0: Table, s: State, s': State)
    requires forall p | p in s.log :: p in s.packets && p in s'.packets
    requires forall p | p in s.log :: s'.packets[p].request == s.packets[p].request
    requires (forall p | p in s.log :: s'.packets[p].answer == s.packets[p].answer)
    requires Sequential(t0, s) && s.server.Holding? && s.server.pid in s.packets && s.server.pid in s'.packets
    requires s'.log == s.log + [s.server.pid] && s'.packets[s.server.pid].request == s.packets[s.server.pid].request
    requires (s'.table, s'.packets[s.server.pid].answer) == Execute(s.table, s.packets[s.server.pid].request)
    ensures Sequential(t0, s')
  {
    hide Execute, Replay, AnswerAt;
    var rs, rs' := Requests(s, s.log), Requests(s', s'.log);
    assert rs' == rs + [s.packets[s.server.pid].request];
    ReplayAppend(t0, rs, s.packets[s.server.pid].request);
    forall i | 0 <= i < |s'.log| ensures s'.packets[s'.log[i]].answer == AnswerAt(t0, rs', i) {
      if i < |s.log| {
        assert s.log[i] in s.log;
      }
    }
  }

  /** One more request: the table and its answer follow from the table so far, earlier answers stay. */
  lemma ReplayAppend(t: Table, rs: seq<Request>, r: Request)
    ensures (Replay(t, rs + [r]), AnswerAt(t, rs + [r], |rs|)) == Execute(Replay(t, rs), r)
    ensures forall i | 0 <= i < |rs| :: AnswerAt(t, rs + [r], i) == AnswerAt(t, rs, i)
  {
    hide Execute;
    assert (rs + [r])[..|rs|] == rs;
    forall i | 0 <= i < |rs| ensures AnswerAt(t, rs + [r], i) == AnswerAt(t, rs, i) {
      assert (rs + [r])[..i] == rs[..i];
    }
  }

  lemma SequentialStep(t0: Table, s: State, step: Step)
    requires PacketsAlive(s) && ExecutedOnce(s) && Sequential(t0, s) && Enabled(s, step)
    ensures ExecutedOnce(Take(s, step)) && Sequential(t0, Take(s, step))
  {
    var s' := Take(s, step);
    OnceStep(s, step);
    forall p | p in s.log {
      LoggedKept(s, step, p);
    }
    hide PacketsAlive, Execute, Replay, AnswerAt, Distinct;
    if step.Run? {
      RunSequential(t0, s, s');
    } else {
      assert Requests(s', s'.log) == Requests(s, s.log);
    }
  }

  lemma {:induction false} ExecutedSame(s: State, s': State, log: seq<nat>, k: Kind)
    requires forall p | p in log :: p in s.packets && p in s'.packets && s'.packets[p].request == s.packets[p].request
    ensures Executed(s', log, k) == Executed(s, log, k)
  {
    if log != [] {
      ExecutedSame(s, s', log[..|log| - 1], k);
    }
  }

  lemma OrderStep(s: State, step: Step, k: Kind)
    requires PacketsAlive(s) && ExecutedOnce(s) && InOrder(s) && Enabled(s, step)
    requires ExecutedOnce(Take(s, step))
    ensures var s' := Take(s, step); s'.issued.Get(k) == Executed(s', s'.log, k) + Pending(s', k) + s'.queues.Get(k)
  {
    var s' := Take(s, step);
    forall p | p in s.log {
      LoggedKept(s, step, p);
    }
    ExecutedSame(s, s', s.log, k);
    assert s.server.Holding? ==> InPhase(s, s.server.pid, Running, s.server.iter);
    OrderCase(s, s', step, k);
  }

  /** What is known of queue k before a step, with the log seen from either side of it. */
  predicate OrderGiven(s: State, s': State, k: Kind) {
    && (forall p | p in s.log :: p in s.packets && p in s'.packets)
    && (forall p | p in s'.log :: p in s'.packets)
    && s.issued.Get(k) == Executed(s, s.log, k) + Pending(s, k) + s.queues.Get(k)
    && Executed(s', s.log, k) == Executed(s, s.log, k)
    && (s.server.Holding? ==> InPhase(s, s.server.pid, Running, s.server.iter))
  }

  lemma OrderRun(s: State, s': State, k: Kind)
    requires Enabled(s, Run) && s' == Take(s, Run) && OrderGiven(s, s', k)
    ensures s'.issued.Get(k) == Executed(s', s'.log, k) + Pending(s', k) + s'.queues.Get(k)
  {
    hide Execute, Executed;
    var e, w := Executed(s, s.log, k), Pending(s, k);
    assert Executed(s', s'.log, k) == e + w by { ExecutedAppend(s', s.log, s.server.pid, k); }
    assert e + w + [] == e + w;
  }

  lemma OrderMove(s: State, s': State, step: Step, k: Kind)
    requires Enabled(s, step) && s' == Take(s, step) && OrderGiven(s, s', k) && (step.Enqueue? || step.Dequeue?)
    ensures s'.issued.Get(k) == Executed(s', s'.log, k) + Pending(s', k) + s'.queues.Get(k)
  {
    hide Execute, Executed;
    var e, w, q := Executed(s, s.log, k), Pending(s, k), s.queues.Get(k);
    if step.Enqueue? {
      assert k == step.request.kind ==> e + w + q + [step.pid] == e + w + (q + [step.pid]);
    } else if k == s.server.iter {
      assert q == [q[0]] + q[1..];
      assert e + [] + q == e + [q[0]] + q[1..];
    }
  }

  lemma OrderCase(s: State, s': State, step: Step, k: Kind)
    requires Enabled(s, step) && s' == Take(s, step) && OrderGiven(s, s', k)
    ensures s'.issued.Get(k) == Executed(s', s'.log, k) + Pending(s', k) + s'.queues.Get(k)
  {
    hide Executed;
    if step.Run? {
      OrderRun(s, s', k);
    } else if step.Enqueue? || step.Dequeue? {
      OrderMove(s, s', step, k);
    } else {
      assert Pending(s', k) == Pending(s, k);
    }
  }

  lemma ExecutedAppend(s: State, log: seq<nat>, p: nat, k: Kind)
    requires forall q | q in log + [p] :: q in s.packets
    ensures Executed(s, log + [p], k) == Executed(s, log, k) + (if s.packets[p].request.kind == k then [p] else [])
  {
    assert (log + [p])[..|log|] == log;
  }

  lemma StepInv(t0: Table, s: State, step: Step)
    requires Inv(t0, s) && Enabled(s, step)
    ensures Inv(t0, Take(s, step))
  {
    hide PacketsAlive, Take, Enabled;
    AliveStep(s, step);
    SequentialStep(t0, s, step);
    hide Sequential;
    forall k: Kind {
      OrderStep(s, step, k);
    }
  }

  // ----- whole runs -----

  /** The state after taking the steps one after the other, if each was enabled in its turn. */
  predicate CanRun(s: State, steps: seq<Step>)
    decreases |steps|, 0
  {
    steps == [] || (CanRun(s, steps[..|steps| - 1]) && Enabled(After(s, steps[..|steps| - 1]), steps[|steps| - 1]))
  }

  function After(s: State, steps: seq<Step>): State
    requires CanRun(s, steps)
    decreases |steps|, 1
  {
    if steps == [] then s else Take(After(s, steps[..|steps| - 1]), steps[|steps| - 1])
  }

  /** For every interleaving: each request is executed once, the table and all answers are those of the
      sequential run in execution order, each queue is served in order, and no queue or server pointer dangles. */
  lemma {:induction false} EveryRun(t0: Table, steps: seq<Step>)
    requires CanRun(Initial(t0), steps)
    ensures Inv(t0, After(Initial(t0), steps))
  {
    hide Inv, Take, Enabled;
    if steps == [] {
      InitialInv(t0);
    } else {
      EveryRun(t0, steps[..|steps| - 1]);
      StepInv(t0, After(Initial(t0), steps[..|steps| - 1]), steps[|steps| - 1]);
    }
  }

  /** Once the flag of a packet is set, no step but its owner's collection changes or frees it. */
  lemma DoneIsFinal(t0: Table, s: State, step: Step, p: nat)
    requires Inv(t0, s) && Enabled(s, step) && p in s.packets && s.packets[p].phase in {Done, Freed}
             && step != Collect(p)
    ensures p in Take(s, step).packets && Take(s, step).packets[p] == s.packets[p]
    ensures step.Run? || step.SetDone? ==> s.server.pid != p
    ensures step.Dequeue? ==> s.queues.Get(s.server.iter)[0] != p
  {
    hide Sequential, InOrder, ExecutedOnce;
    if step.Dequeue? {
      assert InPhase(s, s.queues.Get(s.server.iter)[0], Queued, s.server.iter);
    }
  }

  // ----- what the sequential order means for adders -----

  /** An add request that is about the key, an illegal one about the key that replaces it. */
  predicate IsAdd(r: Request, key: string, keysize: nat) { r.kind == Add && KeyOf(r, keysize) == key }

  /** Objects are never forgotten or changed. */
  lemma {:induction false} ReplayKeeps(t: Table, rs: seq<Request>, i: nat, key: string)
    requires i <= |rs| && key in Replay(t, rs[..i]).objects
    ensures key in Replay(t, rs).objects && Replay(t, rs).objects[key] == Replay(t, rs[..i]).objects[key]
  {
    var n := |rs| - 1;
    if i == |rs| {
      assert rs[..i] == rs;
    } else {
      assert rs[..n][..i] == rs[..i];
      ReplayKeeps(t, rs[..n], i, key);
    }
  }

  /** All adders of one key get the same object, and only the first can see created. */
  lemma AddersAgree(t: Table, rs: seq<Request>, i: nat, j: nat, key: string)
    requires i < j < |rs| && IsAdd(rs[i], key, t.keysize) && IsAdd(rs[j], key, t.keysize)
    ensures AnswerAt(t, rs, i).result == AnswerAt(t, rs, j).result && !AnswerAt(t, rs, j).created
  {
    assert rs[..i + 1][..i] == rs[..i];
    assert key in Replay(t, rs[..i + 1]).objects;
    assert rs[..j][..i + 1] == rs[..i + 1];
    ReplayKeeps(t, rs[..j], i + 1, key);
  }

  /** The first adder of a key that the table did not have sees created. */
  lemma {:induction false} FirstAdderCreates(t: Table, rs: seq<Request>, i: nat, key: string)
    requires i < |rs| && IsAdd(rs[i], key, t.keysize) && key !in t.objects && forall j | 0 <= j < i ::
              !IsAdd(rs[j], key, t.keysize)
    ensures AnswerAt(t, rs, i).created
  {
    StillAbsent(t, rs[..i], key);
  }

  lemma {:induction false} StillAbsent(t: Table, rs: seq<Request>, key: string)
    requires key !in t.objects && forall j | 0 <= j < |rs| :: !IsAdd(rs[j], key, t.keysize)
    ensures key !in Replay(t, rs).objects
  {
    if rs != [] {
      StillAbsent(t, rs[..|rs| - 1], key);
    }
  }

  /** In every reachable state any two executed adders of one key hold the same object and not both saw created. */
  lemma ClientsAgree(t0: Table, s: State, p: nat, q: nat, key: string)
    requires Inv(t0, s) && p in s.log && q in s.log && p != q
    requires p in s.packets && IsAdd(s.packets[p].request, key, t0.keysize) && q in s.packets
             && IsAdd(s.packets[q].request, key, t0.keysize)
    ensures s.packets[p].answer.result == s.packets[q].answer.result
    ensures !(s.packets[p].answer.created && s.packets[q].answer.created)
  {
    hide PacketsAlive, InOrder, Replay, Execute;
    var i :| 0 <= i < |s.log| && s.log[i] == p;
    var j :| 0 <= j < |s.log| && s.log[j] == q;
    var rs := Requests(s, s.log);
    assert IsAdd(rs[i], key, t0.keysize) && IsAdd(rs[j], key, t0.keysize);
    if i < j {
      AddersAgree(t0, rs, i, j, key);
    } else {
      AddersAgree(t0, rs, j, i, key);
    }
  }

  /** If the table did not have the key at first, then as soon as one adder of it was executed there is
      exactly one executed adder that saw created. */
  lemma OneCreator(t0: Table, s: State, q: nat, key: string) returns (p: nat)
    requires Inv(t0, s) && key !in t0.objects
    requires q in s.log && IsAdd(s.packets[q].request, key, t0.keysize)
    ensures p in s.log && IsAdd(s.packets[p].request, key, t0.keysize) && s.packets[p].answer.created
    ensures forall r | r in s.log && r != p && IsAdd(s.packets[r].request, key, t0.keysize) ::
              !s.packets[r].answer.created
  {
    hide PacketsAlive, InOrder, Replay, Execute, AnswerAt;
    var rs := Requests(s, s.log);
    var j :| 0 <= j < |s.log| && s.log[j] == q;
    assert IsAdd(rs[j], key, t0.keysize);
    var i := FirstAdder(rs, j, key, t0.keysize);
    p := s.log[i];
    FirstAdderCreates(t0, rs, i, key);
    forall r | r in s.log && r != p && IsAdd(s.packets[r].request, key, t0.keysize)
        ensures !s.packets[r].answer.created {
      ClientsAgree(t0, s, p, r, key);
    }
  }

  lemma FirstAdder(rs: seq<Request>, j: nat, key: string, keysize: nat) returns (i: nat)
    requires j < |rs| && IsAdd(rs[j], key, keysize)
    ensures i <= j && IsAdd(rs[i], key, keysize) && forall k | 0 <= k < i :: !IsAdd(rs[k], key, keysize)
  {
    i := 0;
    while !IsAdd(rs[i], key, keysize)
      invariant i <= j && forall k | 0 <= k < i :: !IsAdd(rs[k], key, keysize)
      decreases j - i
    {
      i := i + 1;
    }
  }

  /** An illegal key is added as the one that replaces it: a later adder of that one finds it there. */
  lemma ReplacedKey(t: Table)
    requires t.keysize > 6 && "123456" !in t.objects
    ensures var rs := [Request(Add, ""), Request(Add, "123456")];
            && AnswerAt(t, rs, 0).created && !AnswerAt(t, rs, 1).created
            && AnswerAt(t, rs, 0).result == AnswerAt(t, rs, 1).result
  {
    var rs := [Request(Add, ""), Request(Add, "123456")];
    FirstAdderCreates(t, rs, 0, "123456");
    AddersAgree(t, rs, 0, 1, "123456");
  }

  // ----- different keys have different objects -----

  predicate Sound(t: Table) { HashTable.Separate(t.objects, t.nextId) }

  lemma {:induction false} ReplaySound(t: Table, rs: seq<Request>)
    requires Sound(t)
    ensures Sound(Replay(t, rs))
  {
    if rs != [] {
      ReplaySound(t, rs[..|rs| - 1]);
    }
  }

  /** An answer with an object names the object its key has from then on. */
  lemma AnswerObject(t: Table, rs: seq<Request>, i: nat)
    requires i < |rs|
    ensures rs[i].kind == Add ==> AnswerAt(t, rs, i).result != NO_OBJECT
    ensures AnswerAt(t, rs, i).result != NO_OBJECT ==>
              var key := KeyOf(rs[i], t.keysize);
              key in Replay(t, rs).objects && Replay(t, rs).objects[key] == AnswerAt(t, rs, i).result
  {
    if AnswerAt(t, rs, i).result != NO_OBJECT {
      assert rs[..i + 1][..i] == rs[..i];
      ReplayKeeps(t, rs, i + 1, KeyOf(rs[i], t.keysize));
    }
  }

  /** In every reachable state two executed requests that were given objects hold the same one if and only if
      they are about the same key. */
  lemma SameObjectExactly(t0: Table, s: State, p: nat, q: nat)
    requires Sound(t0) && Inv(t0, s) && p in s.log && q in s.log
    requires s.packets[p].request.kind == Add || s.packets[p].answer.result != NO_OBJECT
    requires s.packets[q].request.kind == Add || s.packets[q].answer.result != NO_OBJECT
    ensures s.packets[p].answer.result == s.packets[q].answer.result <==>
            KeyOf(s.packets[p].request, t0.keysize) == KeyOf(s.packets[q].request, t0.keysize)
  {
    hide PacketsAlive, InOrder, Replay, Execute, AnswerAt, KeyOf;
    var i :| 0 <= i < |s.log| && s.log[i] == p;
    var j :| 0 <= j < |s.log| && s.log[j] == q;
    var rs := Requests(s, s.log);
    AnswerObject(t0, rs, i);
    AnswerObject(t0, rs, j);
    ReplaySound(t0, rs);
  }

  /** A search that is executed after an adder of the same key finds the object of that adder. */
  lemma FindsWhatWasAdded(t0: Table, s: State, i: nat, j: nat)
    requires Inv(t0, s) && i < j < |s.log| && s.log[i] in s.packets && s.log[j] in s.packets
    requires s.packets[s.log[i]].request.kind == Add && s.packets[s.log[j]].request.kind == Find
    requires s.packets[s.log[j]].request.key == KeyOf(s.packets[s.log[i]].request, t0.keysize)
    ensures s.packets[s.log[j]].answer.result == s.packets[s.log[i]].answer.result != NO_OBJECT
    ensures !s.packets[s.log[j]].answer.created
  {
    hide PacketsAlive, InOrder, Replay, Execute, AnswerAt, KeyOf;
    var rs := Requests(s, s.log);
    assert rs[i] == s.packets[s.log[i]].request && rs[j] == s.packets[s.log[j]].request;
    FoundLater(t0, rs, i, j);
  }

  lemma FoundLater(t: Table, rs: seq<Request>, i: nat, j: nat)
    requires i < j < |rs| && rs[i].kind == Add && rs[j].kind == Find && rs[j].key == KeyOf(rs[i], t.keysize)
    ensures AnswerAt(t, rs, j) == Answer(AnswerAt(t, rs, i).result, false) && AnswerAt(t, rs, i).result != NO_OBJECT
  {
    assert rs[..j][..i] == rs[..i];
    AnswerObject(t, rs[..j], i);
  }

  /** A search for a key that the table did not have and that no adder gave before finds nothing. */
  lemma {:induction false} FindsNothingElse(t: Table, rs: seq<Request>, j: nat)
    requires j < |rs| && rs[j].kind == Find && rs[j].key !in t.objects
    requires forall i | 0 <= i < j :: !IsAdd(rs[i], rs[j].key, t.keysize)
    ensures AnswerAt(t, rs, j) == Answer(NO_OBJECT, false)
  {
    StillAbsent(t, rs[..j], rs[j].key);
  }

  /** A key that is added as "123456": the key itself, the empty one, and those that do not fit. */
  predicate Replaced(key: string, keysize: nat) { key == "" || |key| >= keysize || key == "123456" }

  /** So two executed adders share an object if and only if they gave the same key, or both a key that is added
      as "123456". */
  lemma SharedExactly(t0: Table, s: State, p: nat, q: nat)
    requires Sound(t0) && Inv(t0, s) && p in s.log && q in s.log
    requires s.packets[p].request.kind == Add && s.packets[q].request.kind == Add
    ensures s.packets[p].answer.result == s.packets[q].answer.result <==>
            var a, b := s.packets[p].request.key, s.packets[q].request.key;
            a == b || (Replaced(a, t0.keysize) && Replaced(b, t0.keysize))
  {
    hide Inv;
    SameObjectExactly(t0, s, p, q);
  }

  // ----- progress -----

  predicate IsServerStep(step: Step) { step.Dequeue? || step.NextQueue? || step.Run? || step.SetDone? }

  /** The server is never stuck. */
  lemma ServerCanStep(t0: Table, s: State) returns (step: Step)
    requires Inv(t0, s)
    ensures IsServerStep(step) && Enabled(s, step)
  {
    hide Sequential, InOrder;
    step := match s.server
            case Idle(iter) => if s.queues.Get(iter) == [] then NextQueue else Dequeue
            case Holding(_, _, executed) => if executed then SetDone else Run;
  }

  /** The steps the server needs before it has executed entry i of queue k, if no client comes in between. */
  function Distance(s: State, k: Kind, i: nat): nat {
    var busy := match s.server case Idle(_) => 0 case Holding(_, _, executed) => if executed then 1 else 2;
    busy + (if s.server.iter == k then 0 else 3 * |s.queues.Get(s.server.iter)| + 1) + 3 * i + 2
  }

  predicate QueuedAt(s: State, p: nat, k: Kind, i: nat) { i < |s.queues.Get(k)| && s.queues.Get(k)[i] == p }

  /** The packet has been executed, or will have been after n more steps of the server. */
  ghost predicate Due(s: State, p: nat, k: Kind, n: int) {
    || p in s.log
    || (s.server.Holding? && s.server.pid == p && !s.server.executed && n >= 1)
    || (exists i: nat :: QueuedAt(s, p, k, i) && n >= Distance(s, k, i))
  }

  /** What a step does to the wait of a packet: the server shortens it, an enqueue adds at most three steps. */
  function Delay(step: Step): int { if IsServerStep(step) then -1 else if step.Enqueue? then 3 else 0 }

  lemma QueuedStep(s: State, step: Step, p: nat, k: Kind, i: nat)
    requires PacketsAlive(s) && Enabled(s, step) && QueuedAt(s, p, k, i)
    ensures Due(Take(s, step), p, k, Distance(s, k, i) + Delay(step))
  {
    hide PacketsAlive, Execute;
    var s' := Take(s, step);
    if step.Dequeue? && s.server.iter == k {
      if i > 0 {
        assert QueuedAt(s', p, k, i - 1);
      }
    } else {
      assert QueuedAt(s', p, k, i);
    }
  }

  lemma DueStep(t0: Table, s: State, step: Step, p: nat, k: Kind, n: int)
    requires Inv(t0, s) && Enabled(s, step) && Due(s, p, k, n)
    ensures Due(Take(s, step), p, k, n + Delay(step))
  {
    hide Sequential, InOrder, ExecutedOnce, Execute, PacketsAlive;
    if p in s.log {
      assert p in Take(s, step).log;
    } else if s.server.Holding? && s.server.pid == p && !s.server.executed && n >= 1 {
      assert step.Run? ==> p in Take(s, step).log;
    } else {
      var i: nat :| QueuedAt(s, p, k, i) && n >= Distance(s, k, i);
      QueuedStep(s, step, p, k, i);
      DueSooner(Take(s, step), p, k, Distance(s, k, i) + Delay(step), n + Delay(step));
    }
  }

  lemma DueSooner(s: State, p: nat, k: Kind, m: int, n: int)
    requires Due(s, p, k, m) && m <= n
    ensures Due(s, p, k, n)
  { }

  function TotalDelay(steps: seq<Step>): int {
    if steps == [] then 0 else TotalDelay(steps[..|steps| - 1]) + Delay(steps[|steps| - 1])
  }

  /** For every run: a queued packet has been executed as soon as the server has taken as many steps as
      it is away, and three more for every packet that was enqueued in the meantime. */
  lemma {:induction false} ServedInTime(t0: Table, s: State, steps: seq<Step>, p: nat, k: Kind, i: nat)
    requires Inv(t0, s) && CanRun(s, steps) && QueuedAt(s, p, k, i)
    ensures Inv(t0, After(s, steps)) && Due(After(s, steps), p, k, Distance(s, k, i) + TotalDelay(steps))
    ensures Distance(s, k, i) + TotalDelay(steps) <= 0 ==> p in After(s, steps).log
  {
    hide Inv, Take, Enabled, Distance;
    if steps != [] {
      var before := steps[..|steps| - 1];
      ServedInTime(t0, s, before, p, k, i);
      StepInv(t0, After(s, before), steps[|steps| - 1]);
      DueStep(t0, After(s, before), steps[|steps| - 1], p, k, Distance(s, k, i) + TotalDelay(before));
    }
    DistancePositive(After(s, steps), k);
  }

  lemma DistancePositive(s: State, k: Kind)
    ensures forall i: nat :: Distance(s, k, i) > 0
  { }

  // ----- the concrete table serves requests as the map does -----

  /** One pass of the server's inner loop over the open-addressing table. */
  method Serve(h: HashTable.Hashtable, r: Request) returns (answer: Answer)
    requires h.Valid()
    modifies h
    ensures h.Valid() && Sound(Abstract(h)) && (Abstract(h), answer) == Execute(old(Abstract(h)), r)
  {
    if r.kind == Add {
      var ptr, created := h.AddHashtable(r.key);
      answer := Answer(ptr.value, created);
    } else {
      var ind := h.Find(r.key);
      if r.key == "" {
        HashTable.ContentsOf(h.slots, r.key);
      }
      answer := Answer(if ind.Some? && h.slots[ind.value].Full? then h.slots[ind.value].id else NO_OBJECT, false);
    }
  }

  /** The map a table stands for, with the next object and the key size. */
  ghost function Abstract(h: HashTable.Hashtable): Table
    reads h
  {
    Table(h.Map(), h.nextId, h.keysize)
  }

  /** Serving a log of requests one by one on the concrete table gives the table and the answers of the
      sequential reference. */
  method ServeAll(h: HashTable.Hashtable, requests: seq<Request>) returns (answers: seq<Answer>)
    requires h.Valid()
    modifies h
    ensures h.Valid() && Sound(Abstract(h)) && Abstract(h) == Replay(old(Abstract(h)), requests)
    ensures |answers| == |requests|
    ensures forall i | 0 <= i < |requests| :: answers[i] == AnswerAt(old(Abstract(h)), requests, i)
  {
    hide Execute;
    answers := [];
    for i := 0 to |requests|
      invariant h.Valid() && Abstract(h) == Replay(old(Abstract(h)), requests[..i]) && |answers| == i
      invariant forall j | 0 <= j < i :: answers[j] == AnswerAt(old(Abstract(h)), requests, j)
    {
      assert requests[..i + 1][..i] == requests[..i];
      var a := Serve(h, requests[i]);
      answers := answers + [a];
    }
    assert requests[..|requests|] == requests;
  }
}
