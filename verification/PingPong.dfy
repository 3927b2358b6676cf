/** process_pingpong_queue of libjl777/jl777hash.h, over first-in first-out queues.
    Queue 0 and queue 1 are pingpong[0] and pingpong[1]; the destination and error queues are any
    queues, possibly the same one, possibly none. */
module PingPong {
  /** A non-null pointer. */
  type Item = x: nat | x != 0 witness 1

  datatype Target = NoQueue | Queue(id: nat)

  /** The action callback: given how often it ran before and an item, it may replace the item and
      returns the sign that decides where the item goes. */
  datatype Config = Config(dest: Target, error: Target, action: (nat, Item) -> (Item, int))

  /** One call of the action: the item before and after, and where it went. */
  datatype Entry = Entry(before: Item, after: Item, target: Target)

  /** The queues, what was freed, and a log of the action calls. */
  datatype State = State(queues: seq<seq<Item>>, freed: seq<Item>, log: seq<Entry>)

  predicate WellFormed(c: Config, st: State) {
    && |st.queues| >= 2
    && (c.dest.Queue? ==> c.dest.id < |st.queues|)
    && (c.error.Queue? ==> c.error.id < |st.queues|)
  }

  /** Where an item goes after the action returned retval in round iter. */
  function Route(c: Config, iter: nat, retval: int): Target
    requires iter < 2
  {
    if retval == 0 then Queue(1 - iter)
    else if retval < 0 then (if c.error == Queue(0) then Queue(1 - iter) else c.error)
    else (if c.dest == Queue(0) then Queue(1 - iter) else c.dest)
  }

  /** What call n of the action does with an item in round iter. */
  function Handle(c: Config, iter: nat, n: nat, item: Item): Entry
    requires iter < 2
  {
    var (item', retval) := c.action(n, item);
    Entry(item, item', Route(c, iter, retval))
  }

  /** Dequeue, run the action, and enqueue or free. */
  function Step(c: Config, iter: nat, st: State): State
    requires iter < 2 && WellFormed(c, st) && st.queues[iter] != []
  {
    var rest := st.queues[iter := st.queues[iter][1..]];
    var e := Handle(c, iter, |st.log|, st.queues[iter][0]);
    match e.target
    case NoQueue => State(rest, st.freed + [e.after], st.log + [e])
    case Queue(id) => State(rest[id := rest[id] + [e.after]], st.freed, st.log + [e])
  }

  /** Neither target is pingpong[1]. */
  predicate NoneFeedsBack(c: Config) { c.dest != Queue(1) && c.error != Queue(1) }

  /** A round that cannot feed itself: the first never does. */
  predicate Terminates(c: Config, iter: nat) { iter == 0 || NoneFeedsBack(c) }

  /** One round: run until queue iter is empty. */
  function Drain(c: Config, iter: nat, st: State): State
    requires iter < 2 && WellFormed(c, st) && Terminates(c, iter)
    decreases |st.queues[iter]|
  {
    if st.queues[iter] == [] then st else Drain(c, iter, Step(c, iter, st))
  }

  // ----- what a round does -----

  /** The calls of a round that finds the items q in its queue, the first being call n. */
  function Handled(c: Config, iter: nat, n: nat, q: seq<Item>): seq<Entry>
    requires iter < 2
  {
    seq(|q|, i requires 0 <= i < |q| => Handle(c, iter, n + i, q[i]))
  }

  /** The places of the entries that went to a target, in order. */
  function Places(entries: seq<Entry>, t: Target): (r: seq<nat>)
    ensures forall j | 0 <= j < |r| :: r[j] < |entries| && entries[r[j]].target == t
    ensures forall j, k | 0 <= j < k < |r| :: r[j] < r[k]
    ensures forall i | 0 <= i < |entries| && entries[i].target == t :: i in r
  {
    if entries == [] then []
    else
      var n := |entries| - 1;
      Places(entries[..n], t) + (if entries[n].target == t then [n] else [])
  }

  /** The items that went to a target, in order. */
  function Routed(entries: seq<Entry>, t: Target): seq<Item> {
    var p := Places(entries, t);
    seq(|p|, j requires 0 <= j < |p| => entries[p[j]].after)
  }

  lemma RoutedAppend(entries: seq<Entry>, e: Entry, t: Target)
    ensures Routed(entries + [e], t) == Routed(entries, t) + (if e.target == t then [e.after] else [])
  {
    assert (entries + [e])[..|entries|] == entries;
  }

  lemma RoutedEmpty(t: Target)
    ensures Routed([], t) == []
  { }

  /** The state after a round whose calls were the entries h. */
  predicate Delivered(iter: nat, st: State, st': State, h: seq<Entry>) {
    && |st'.queues| == |st.queues| && st'.log == st.log + h && st'.freed == st.freed + Routed(h, NoQueue)
    && (forall id | 0 <= id < |st.queues| && id != iter ::
          st'.queues[id] == st.queues[id] + Routed(h, Queue(id)))
  }

  function Total(queues: seq<seq<Item>>): multiset<Item> {
    if queues == [] then multiset{} else multiset(queues[0]) + Total(queues[1..])
  }

  /** Everything there is: queued or freed. */
  function Everything(st: State): multiset<Item> { Total(st.queues) + multiset(st.freed) }

  function Befores(log: seq<Entry>): multiset<Item> {
    if log == [] then multiset{} else Befores(log[..|log| - 1]) + multiset{log[|log| - 1].before}
  }

  function Afters(log: seq<Entry>): multiset<Item> {
    if log == [] then multiset{} else Afters(log[..|log| - 1]) + multiset{log[|log| - 1].after}
  }

  /** What there is, plus what actions took in, equals what there was plus what actions gave back. */
  ghost predicate Conserved(initial: multiset<Item>, st: State) {
    Everything(st) + Befores(st.log) == initial + Afters(st.log)
  }

  lemma {:induction false} TotalUpdate(queues: seq<seq<Item>>, i: nat, q: seq<Item>)
    requires i < |queues|
    ensures Total(queues[i := q]) + multiset(queues[i]) == Total(queues) + multiset(q)
  {
    var u := queues[i := q];
    if i == 0 {
      assert u[1..] == queues[1..];
    } else {
      TotalUpdate(queues[1..], i - 1, q);
      assert u[1..] == queues[1..][i - 1 := q] && u[0] == queues[0];
      assert Total(u) + multiset(queues[i]) == multiset(queues[0]) + (Total(u[1..]) + multiset(queues[1..][i - 1]));
    }
  }

  lemma Cancel(a: multiset<Item>, b: multiset<Item>, c: multiset<Item>)
    requires a + c == b + c
    ensures a == b
  {
    assert a == (a + c) - c;
    assert b == (b + c) - c;
  }

  lemma TotalTake(queues: seq<seq<Item>>, i: nat)
    requires i < |queues| && queues[i] != []
    ensures Total(queues[i := queues[i][1..]]) + multiset{queues[i][0]} == Total(queues)
  {
    var q := queues[i];
    TotalUpdate(queues, i, q[1..]);
    assert q == [q[0]] + q[1..];
    Cancel(Total(queues[i := q[1..]]) + multiset{q[0]}, Total(queues), multiset(q[1..]));
  }

  lemma TotalPut(queues: seq<seq<Item>>, i: nat, x: Item)
    requires i < |queues|
    ensures Total(queues[i := queues[i] + [x]]) == Total(queues) + multiset{x}
  {
    TotalUpdate(queues, i, queues[i] + [x]);
    Cancel(Total(queues[i := queues[i] + [x]]), Total(queues) + multiset{x}, multiset(queues[i]));
  }

  lemma LogStep(log: seq<Entry>, e: Entry)
    ensures Befores(log + [e]) == Befores(log) + multiset{e.before}
    ensures Afters(log + [e]) == Afters(log) + multiset{e.after}
  {
    assert (log + [e])[..|log|] == log;
  }

  /** A step exchanges the item it takes for the one the action gives back. */
  lemma StepExchanges(c: Config, iter: nat, st: State)
    requires iter < 2 && WellFormed(c, st) && st.queues[iter] != []
    ensures
      var e := Handle(c, iter, |st.log|, st.queues[iter][0]);
      var st' := Step(c, iter, st);
      Everything(st') + multiset{e.before} == Everything(st) + multiset{e.after} && st'.log == st.log + [e]
  {
    hide Total;
    var rest := st.queues[iter := st.queues[iter][1..]];
    var e := Handle(c, iter, |st.log|, st.queues[iter][0]);
    TotalTake(st.queues, iter);
    match e.target
    case NoQueue =>
      assert multiset(st.freed + [e.after]) == multiset(st.freed) + multiset{e.after};
    case Queue(id) =>
      TotalPut(rest, id, e.after);
  }

  lemma StepConserves(c: Config, iter: nat, st: State, initial: multiset<Item>)
    requires iter < 2 && WellFormed(c, st) && st.queues[iter] != [] && Conserved(initial, st)
    ensures Conserved(initial, Step(c, iter, st)) && WellFormed(c, Step(c, iter, st))
  {
    var e := Handle(c, iter, |st.log|, st.queues[iter][0]);
    var st' := Step(c, iter, st);
    assert WellFormed(c, st');
    StepExchanges(c, iter, st);
    hide Everything, Step, Befores, Afters;
    LogStep(st.log, e);
    Rebalance(Everything(st), Everything(st'), Befores(st.log), Afters(st.log), initial, e.before, e.after);
  }

  lemma Rebalance(e: multiset<Item>, e': multiset<Item>, b: multiset<Item>, a: multiset<Item>,
                  initial: multiset<Item>, x: Item, y: Item)
    requires e' + multiset{x} == e + multiset{y} && e + b == initial + a
    ensures e' + (b + multiset{x}) == initial + (a + multiset{y})
  {
    calc {
      e' + (b + multiset{x});
      (e' + multiset{x}) + b;
      (e + multiset{y}) + b;
      (e + b) + multiset{y};
      (initial + a) + multiset{y};
      initial + (a + multiset{y});
    }
  }

  // ----- both rounds -----

  /** One step handles the first item of the queue and delivers it. */
  lemma StepDelivers(c: Config, iter: nat, st: State)
    requires iter < 2 && WellFormed(c, st) && st.queues[iter] != [] && Terminates(c, iter)
    ensures
      var e := Handle(c, iter, |st.log|, st.queues[iter][0]);
      var st' := Step(c, iter, st);
      WellFormed(c, st') && st'.queues[iter] == st.queues[iter][1..] && Delivered(iter, st, st', [e])
  {
    hide Routed;
    var e := Handle(c, iter, |st.log|, st.queues[iter][0]);
    hide Handle;
    forall t: Target ensures Routed([e], t) == if e.target == t then [e.after] else [] {
      RoutedSingle(e, t);
    }
    assert e.target != Queue(iter) by { NotOwnQueue(c, iter, |st.log|, st.queues[iter][0]); }
    hide Terminates;
  }

  lemma NotOwnQueue(c: Config, iter: nat, n: nat, item: Item)
    requires iter < 2 && Terminates(c, iter)
    ensures Handle(c, iter, n, item).target != Queue(iter)
  { }

  lemma RoutedSingle(e: Entry, t: Target)
    ensures Routed([e], t) == if e.target == t then [e.after] else []
  {
    hide Routed;
    RoutedAppend([], e, t);
    RoutedEmpty(t);
    assert [] + [e] == [e];
  }

  lemma {:induction false} RoutedConcat(a: seq<Entry>, b: seq<Entry>, t: Target)
    ensures Routed(a + b, t) == Routed(a, t) + Routed(b, t)
  {
    hide Routed;
    if b == [] {
      RoutedEmpty(t);
      assert a + b == a;
    } else {
      var n := |b| - 1;
      RoutedConcat(a, b[..n], t);
      RoutedAppend(a + b[..n], b[n], t);
      RoutedAppend(b[..n], b[n], t);
      assert a + b == (a + b[..n]) + [b[n]] && b == b[..n] + [b[n]];
    }
  }

  lemma DeliveredTwice(iter: nat, st: State, st1: State, st2: State, g: seq<Entry>, h: seq<Entry>)
    requires Delivered(iter, st, st1, g) && Delivered(iter, st1, st2, h)
    ensures Delivered(iter, st, st2, g + h)
  {
    hide Routed;
    forall t: Target ensures Routed(g + h, t) == Routed(g, t) + Routed(h, t) {
      RoutedConcat(g, h, t);
    }
    assert st.freed + Routed(g, NoQueue) + Routed(h, NoQueue) == st.freed + Routed(g + h, NoQueue);
    forall id | 0 <= id < |st.queues| && id != iter
      ensures st2.queues[id] == st.queues[id] + Routed(g + h, Queue(id))
    {
      var q := st.queues[id];
      assert q + Routed(g, Queue(id)) + Routed(h, Queue(id)) == q + (Routed(g, Queue(id)) + Routed(h, Queue(id)));
    }
  }

  /** A round handles each item it finds once and in order, delivers it, and empties its queue. */
  lemma {:induction false} DrainResult(c: Config, iter: nat, st: State)
    requires iter < 2 && WellFormed(c, st) && Terminates(c, iter)
    ensures
      var st' := Drain(c, iter, st);
      && WellFormed(c, st') && st'.queues[iter] == []
      && Delivered(iter, st, st', Handled(c, iter, |st.log|, st.queues[iter]))
    decreases |st.queues[iter]|
  {
    hide Routed, Step, Handled, Handle, Delivered;
    var q := st.queues[iter];
    if q == [] {
      NothingDelivered(iter, st);
      NothingHandled(c, iter, |st.log|);
    } else {
      var st1, e := Step(c, iter, st), Handle(c, iter, |st.log|, q[0]);
      StepDelivers(c, iter, st);
      StepLogs(c, iter, st);
      DrainResult(c, iter, st1);
      DeliveredTwice(iter, st, st1, Drain(c, iter, st1), [e], Handled(c, iter, |st.log| + 1, q[1..]));
      HandledFirst(c, iter, |st.log|, q);
    }
  }

  lemma StepLogs(c: Config, iter: nat, st: State)
    requires iter < 2 && WellFormed(c, st) && st.queues[iter] != []
    ensures |Step(c, iter, st).log| == |st.log| + 1
  { }

  lemma NothingHandled(c: Config, iter: nat, n: nat)
    requires iter < 2
    ensures Handled(c, iter, n, []) == []
  { }

  lemma HandledFirst(c: Config, iter: nat, n: nat, q: seq<Item>)
    requires iter < 2 && q != []
    ensures Handled(c, iter, n, q) == [Handle(c, iter, n, q[0])] + Handled(c, iter, n + 1, q[1..])
  {
    hide Handle;
  }

  lemma NothingDelivered(iter: nat, st: State)
    ensures Delivered(iter, st, st, [])
  {
    forall t: Target ensures Routed([], t) == [] {
      RoutedEmpty(t);
    }
    hide Routed;
  }

  lemma {:induction false} DrainConserves(c: Config, iter: nat, st: State, initial: multiset<Item>)
    requires iter < 2 && WellFormed(c, st) && Terminates(c, iter) && Conserved(initial, st)
    ensures Conserved(initial, Drain(c, iter, st))
    decreases |st.queues[iter]|
  {
    hide Conserved;
    if st.queues[iter] != [] {
      StepConserves(c, iter, st, initial);
      StepDelivers(c, iter, st);
      DrainConserves(c, iter, Step(c, iter, st), initial);
    }
  }

  /** The calls of the first round, and of the second, which finds what was in pingpong[1] and then what
      the first round put there. */
  function FirstCalls(c: Config, st: State): seq<Entry>
    requires |st.queues| >= 2
  {
    Handled(c, 0, 0, st.queues[0])
  }

  function SecondCalls(c: Config, st: State): seq<Entry>
    requires |st.queues| >= 2
  {
    Handled(c, 1, |st.queues[0]|, st.queues[1] + Routed(FirstCalls(c, st), Queue(1)))
  }

  /** The calls of the action, and the place of every item, after both rounds: pingpong[1] is empty,
      pingpong[0] holds what the second round sent back, every other queue and the freed items gained
      what was routed to them, in order, and nothing else. */
  lemma BothRounds(c: Config, st: State)
    requires WellFormed(c, st) && NoneFeedsBack(c) && st.log == []
    ensures
      var mid := Drain(c, 0, st);
      WellFormed(c, mid) &&
      var end, g, h := Drain(c, 1, mid), FirstCalls(c, st), SecondCalls(c, st);
      && WellFormed(c, end) && end.log == g + h && end.queues[1] == [] && end.queues[0] == Routed(h, Queue(0))
      && end.freed == st.freed + Routed(g, NoQueue) + Routed(h, NoQueue)
      && |end.queues| == |st.queues|
      && (forall id | 2 <= id < |st.queues| ::
            end.queues[id] == st.queues[id] + Routed(g, Queue(id)) + Routed(h, Queue(id)))
      && Conserved(Everything(st), end)
  {
    hide Routed, Handled, Conserved, Drain;
    DrainResult(c, 0, st);
    DrainResult(c, 1, Drain(c, 0, st));
    StartConserved(st);
    DrainConserves(c, 0, st, Everything(st));
    DrainConserves(c, 1, Drain(c, 0, st), Everything(st));
    HandledLength(c, st);
    assert [] + FirstCalls(c, st) == FirstCalls(c, st);
    assert [] + Routed(SecondCalls(c, st), Queue(0)) == Routed(SecondCalls(c, st), Queue(0));
  }

  lemma StartConserved(st: State)
    requires st.log == []
    ensures Conserved(Everything(st), st)
  { }

  lemma HandledLength(c: Config, st: State)
    requires |st.queues| >= 2
    ensures |FirstCalls(c, st)| == |st.queues[0]|
  { }

  /** Nothing goes to a queue other than the partner of the round, the destination and the error queue. */
  lemma RoutedWithin(c: Config, iter: nat, n: nat, q: seq<Item>, id: nat)
    requires iter < 2 && id != 1 - iter && c.dest != Queue(id) && c.error != Queue(id)
    ensures Routed(Handled(c, iter, n, q), Queue(id)) == []
  {
    var h := Handled(c, iter, n, q);
    assert forall i | 0 <= i < |h| :: h[i].target != Queue(id);
    NoPlaces(h, Queue(id));
  }

  lemma {:induction false} NoPlaces(entries: seq<Entry>, t: Target)
    requires forall i | 0 <= i < |entries| :: entries[i].target != t
    ensures Places(entries, t) == []
  {
    if entries != [] {
      NoPlaces(entries[..|entries| - 1], t);
    }
  }

  /** Queues that are neither ping-pong queues nor targets are left alone. */
  lemma OthersUnchanged(c: Config, st: State, id: nat)
    requires WellFormed(c, st) && NoneFeedsBack(c) && st.log == [] && 2 <= id < |st.queues|
    requires c.dest != Queue(id) && c.error != Queue(id)
    ensures WellFormed(c, Drain(c, 0, st)) && |Drain(c, 1, Drain(c, 0, st)).queues| == |st.queues|
    ensures Drain(c, 1, Drain(c, 0, st)).queues[id] == st.queues[id]
  {
    hide Routed, Handled, Drain;
    BothRounds(c, st);
    RoutedWithin(c, 0, 0, st.queues[0], id);
    RoutedWithin(c, 1, |st.queues[0]|, st.queues[1] + Routed(FirstCalls(c, st), Queue(1)), id);
    assert st.queues[id] + [] + [] == st.queues[id];
  }

  // ----- the sign of the action's result decides -----

  /** What the calls of the action return, the first being call n, where the sign of the result is chosen. */
  function Chosen(c: Config, n: nat, items: seq<Item>, sign: int -> bool): seq<Item> {
    if items == [] then []
    else
      var k := |items| - 1;
      var (after, retval) := c.action(n + k, items[k]);
      Chosen(c, n, items[..k], sign) + (if sign(retval) then [after] else [])
  }

  /** The results that send an item to a queue beyond the ping-pong queues, or have it freed. */
  function SentTo(c: Config, t: Target): int -> bool {
    retval => (retval < 0 && c.error == t) || (retval > 0 && c.dest == t)
  }

  /** The results that send an item to the other ping-pong queue. */
  function SentAcross(c: Config): int -> bool {
    retval => retval == 0 || (retval < 0 && c.error == Queue(0)) || (retval > 0 && c.dest == Queue(0))
  }

  lemma HandledLast(c: Config, iter: nat, n: nat, q: seq<Item>)
    requires iter < 2 && q != []
    ensures var k := |q| - 1;
            Handled(c, iter, n, q) == Handled(c, iter, n, q[..k]) + [Handle(c, iter, n + k, q[k])]
  {
    hide Handle;
  }

  lemma {:induction false} RoutedChosen(c: Config, iter: nat, n: nat, q: seq<Item>, t: Target, sign: int -> bool)
    requires iter < 2 && forall r :: sign(r) <==> Route(c, iter, r) == t
    ensures Routed(Handled(c, iter, n, q), t) == Chosen(c, n, q, sign)
  {
    hide Routed, Handled, Route;
    if q == [] {
      NothingHandled(c, iter, n);
      RoutedEmpty(t);
    } else {
      var k := |q| - 1;
      RoutedChosen(c, iter, n, q[..k], t, sign);
      HandledLast(c, iter, n, q);
      RoutedAppend(Handled(c, iter, n, q[..k]), Handle(c, iter, n + k, q[k]), t);
    }
  }

  /** The items that the second round finds. */
  function SecondItems(c: Config, st: State): seq<Item>
    requires |st.queues| >= 2
  {
    st.queues[1] + Chosen(c, 0, st.queues[0], SentAcross(c))
  }

  /** The state after both rounds by the signs of the results alone: every item found in pingpong[0], then every
      item found in pingpong[1], is given to the action once and in order; the error queue gains what was returned with
      a negative result, the destination what was returned with a positive one, and if there is no such
      queue that is freed; the partner queue gains the rest, and what a target pingpong[0] would. */
  ghost predicate SignsDecide(c: Config, st: State, end: State)
    requires |st.queues| >= 2
  {
    var first, second := st.queues[0], SecondItems(c, st);
    var n := |first|;
    && |end.queues| == |st.queues| && end.queues[0] == Chosen(c, n, second, SentAcross(c)) && end.queues[1] == []
    && end.freed == st.freed + Chosen(c, 0, first, SentTo(c, NoQueue)) + Chosen(c, n, second, SentTo(c, NoQueue))
    && (forall id | 2 <= id < |st.queues| ::
          end.queues[id] ==
          st.queues[id] + Chosen(c, 0, first, SentTo(c, Queue(id))) + Chosen(c, n, second, SentTo(c, Queue(id))))
    && |end.log| == n + |second|
    && (forall j | 0 <= j < |end.log| ::
          && end.log[j].before == (first + second)[j]
          && end.log[j].after == c.action(j, (first + second)[j]).0)
  }

  lemma BothRoundsBySign(c: Config, st: State)
    requires WellFormed(c, st) && NoneFeedsBack(c) && st.log == []
    ensures WellFormed(c, Drain(c, 0, st)) && SignsDecide(c, st, Drain(c, 1, Drain(c, 0, st)))
  {
    hide Routed, Handled, Conserved, Drain, Chosen;
    BothRounds(c, st);
    var first, second := st.queues[0], SecondItems(c, st);
    var g, h := FirstCalls(c, st), SecondCalls(c, st);
    RoutedChosen(c, 0, 0, first, Queue(1), SentAcross(c));
    RoutedChosen(c, 1, |first|, second, Queue(0), SentAcross(c));
    RoutedChosen(c, 0, 0, first, NoQueue, SentTo(c, NoQueue));
    RoutedChosen(c, 1, |first|, second, NoQueue, SentTo(c, NoQueue));
    forall id | 2 <= id < |st.queues|
      ensures Routed(g, Queue(id)) == Chosen(c, 0, first, SentTo(c, Queue(id)))
      ensures Routed(h, Queue(id)) == Chosen(c, |first|, second, SentTo(c, Queue(id)))
    {
      RoutedChosen(c, 0, 0, first, Queue(id), SentTo(c, Queue(id)));
      RoutedChosen(c, 1, |first|, second, Queue(id), SentTo(c, Queue(id)));
    }
    HandledItems(c, 0, 0, first);
    HandledItems(c, 1, |first|, second);
  }

  lemma HandledItems(c: Config, iter: nat, n: nat, q: seq<Item>)
    requires iter < 2
    ensures |Handled(c, iter, n, q)| == |q|
    ensures forall j | 0 <= j < |q| ::
              Handled(c, iter, n, q)[j].before == q[j] && Handled(c, iter, n, q)[j].after == c.action(n + j, q[j]).0
  { }

  // ----- each item is handled at most twice -----

  /** Where the item of a call was at the start, and whether this is its first or its second call. */
  datatype Origin = Origin(queue: nat, place: nat, visit: nat)

  function OriginOf(c: Config, st: State, j: nat): Origin
    requires |st.queues| >= 2 && j < |FirstCalls(c, st) + SecondCalls(c, st)|
  {
    var n0, n1 := |st.queues[0]|, |st.queues[1]|;
    if j < n0 then Origin(0, j, 1)
    else if j < n0 + n1 then Origin(1, j - n0, 1)
    else Origin(0, Places(FirstCalls(c, st), Queue(1))[j - n0 - n1], 2)
  }

  /** Every call is the first call for an item, taken from its queue, or the second call for one that
      the first round sent to pingpong[1], with the pointer its first call left. */
  lemma CallsHaveOrigins(c: Config, st: State, j: nat)
    requires |st.queues| >= 2 && j < |FirstCalls(c, st) + SecondCalls(c, st)|
    ensures var o, e, g := OriginOf(c, st, j), (FirstCalls(c, st) + SecondCalls(c, st))[j], FirstCalls(c, st);
            && o.queue < 2 && o.place < |st.queues[o.queue]| && 1 <= o.visit <= 2
            && (o.visit == 1 ==> e.before == st.queues[o.queue][o.place])
            && (o.visit == 2 ==> o.queue == 0 && g[o.place].target == Queue(1) && e.before == g[o.place].after)
  {
    hide Places;
  }

  /** No two calls are the same call for the same item, so no item has more than two. */
  lemma AtMostTwice(c: Config, st: State, i: nat, j: nat)
    requires |st.queues| >= 2 && i < j < |FirstCalls(c, st) + SecondCalls(c, st)|
    ensures OriginOf(c, st, i) != OriginOf(c, st, j)
  {
    hide Places;
  }

  // ----- termination -----

  /** The state after n turns of a round's loop, or where it stopped before. */
  function Turns(c: Config, iter: nat, st: State, n: nat): (st': State)
    requires iter < 2 && WellFormed(c, st)
    ensures WellFormed(c, st')
    decreases n
  {
    if n == 0 || st.queues[iter] == [] then st else Turns(c, iter, Step(c, iter, st), n - 1)
  }

  /** The loop of a round comes to an end. */
  ghost predicate Ends(c: Config, iter: nat, st: State)
    requires iter < 2 && WellFormed(c, st)
  {
    exists n: nat :: Turns(c, iter, st, n).queues[iter] == []
  }

  lemma {:induction false} DrainEnds(c: Config, iter: nat, st: State)
    requires iter < 2 && WellFormed(c, st) && Terminates(c, iter)
    ensures Turns(c, iter, st, |st.queues[iter]|) == Drain(c, iter, st) && Drain(c, iter, st).queues[iter] == []
    decreases |st.queues[iter]|
  {
    hide Step, Delivered;
    if st.queues[iter] != [] {
      StepDelivers(c, iter, st);
      DrainEnds(c, iter, Step(c, iter, st));
    }
  }

  /** The action sends every item back into the queue of the second round. */
  ghost predicate FeedsBack(c: Config) { forall k, x :: Route(c, 1, c.action(k, x).1) == Queue(1) }

  /** Such a round keeps its queue as long as it is. */
  lemma {:induction false} SelfFeeding(c: Config, st: State, n: nat)
    requires WellFormed(c, st) && FeedsBack(c)
    ensures |Turns(c, 1, st, n).queues[1]| == |st.queues[1]|
    decreases n
  {
    if n > 0 && st.queues[1] != [] {
      assert Route(c, 1, c.action(|st.log|, st.queues[1][0]).1) == Queue(1);
      SelfFeeding(c, Step(c, 1, st), n - 1);
    }
  }

  /** With a target pingpong[1] that every item is sent to, the second round ends exactly when nothing
      was in either queue: what was in pingpong[0] arrives there from the first round. */
  lemma EndsOnlyEmpty(c: Config, st: State)
    requires WellFormed(c, st) && FeedsBack(c)
    ensures WellFormed(c, Drain(c, 0, st))
    ensures Ends(c, 1, Drain(c, 0, st)) <==> st.queues[0] == [] && st.queues[1] == []
  {
    hide Turns, Drain, FeedsBack;
    var mid := Drain(c, 0, st);
    Arrivals(c, st);
    forall n: nat ensures |Turns(c, 1, mid, n).queues[1]| == |mid.queues[1]| {
      SelfFeeding(c, mid, n);
    }
    if mid.queues[1] == [] {
      assert Turns(c, 1, mid, 0).queues[1] == [];
    }
  }

  /** The first round sends on what such an action would send back. */
  lemma Arrivals(c: Config, st: State)
    requires WellFormed(c, st) && FeedsBack(c)
    ensures WellFormed(c, Drain(c, 0, st))
    ensures Drain(c, 0, st).queues[1] == [] <==> st.queues[0] == [] && st.queues[1] == []
  {
    hide Drain, Routed, Handled;
    DrainResult(c, 0, st);
    if st.queues[0] == [] {
      NothingHandled(c, 0, |st.log|);
      RoutedEmpty(Queue(1));
    } else {
      assert Route(c, 1, c.action(|st.log|, st.queues[0][0]).1) == Queue(1);
      FirstArrives(c, |st.log|, st.queues[0]);
    }
  }

  lemma FirstArrives(c: Config, n: nat, q: seq<Item>)
    requires q != [] && Route(c, 0, c.action(n, q[0]).1) == Queue(1)
    ensures Routed(Handled(c, 0, n, q), Queue(1)) != []
  {
    var h := Handled(c, 0, n, q);
    assert h[0].target == Queue(1);
    assert 0 in Places(h, Queue(1));
  }

  /** Both loops come to an end. */
  ghost predicate Halts(c: Config, st: State)
    requires WellFormed(c, st)
  {
    Ends(c, 0, st) && WellFormed(c, Drain(c, 0, st)) && Ends(c, 1, Drain(c, 0, st))
  }

  /** For every action and every state. */
  ghost predicate AlwaysHalts(dest: Target, error: Target) {
    forall c: Config, st | c.dest == dest && c.error == error && WellFormed(c, st) :: Halts(c, st)
  }

  /** Both loops end for every action and every state if and only if neither target is pingpong[1]. */
  lemma HaltsExactly(dest: Target, error: Target)
    ensures AlwaysHalts(dest, error) <==> dest != Queue(1) && error != Queue(1)
  {
    hide Halts;
    if dest != Queue(1) && error != Queue(1) {
      forall c: Config, st | c.dest == dest && c.error == error && WellFormed(c, st) ensures Halts(c, st) {
        SafeHalts(c, st);
      }
    } else {
      var c, st := Endless(dest, error);
    }
  }

  lemma SafeHalts(c: Config, st: State)
    requires WellFormed(c, st) && NoneFeedsBack(c)
    ensures Halts(c, st)
  {
    hide Turns, Drain;
    DrainResult(c, 0, st);
    DrainEnds(c, 0, st);
    DrainEnds(c, 1, Drain(c, 0, st));
  }

  /** With a target pingpong[1] there is an action and a state on which the second loop does not end. */
  lemma Endless(dest: Target, error: Target) returns (c: Config, st: State)
    requires dest == Queue(1) || error == Queue(1)
    ensures c.dest == dest && c.error == error && WellFormed(c, st) && !Halts(c, st)
  {
    hide Drain, Ends;
    var sign := if dest == Queue(1) then 1 else -1;
    c := Config(dest, error, (k, x) => (x, sign));
    var n := 2 + (if dest.Queue? then dest.id else 0) + (if error.Queue? then error.id else 0);
    st := State(seq(n, _ => [1]), [], []);
    assert FeedsBack(c);
    EndsOnlyEmpty(c, st);
  }

  /** The two nested loops of the source. It returns twice the length of pingpong[0]: the sum it
      forms names that queue twice, but pingpong[1] is empty by then. */
  method ProcessPingpongQueue(c: Config, start: State) returns (end: State, remaining: nat)
    requires WellFormed(c, start) && NoneFeedsBack(c) && start.log == []
    ensures WellFormed(c, Drain(c, 0, start)) && end == Drain(c, 1, Drain(c, 0, start))
    ensures WellFormed(c, end) && end.log == FirstCalls(c, start) + SecondCalls(c, start) && end.queues[1] == []
    ensures end.queues[0] == Routed(SecondCalls(c, start), Queue(0)) && |end.queues| == |start.queues|
    ensures forall id | 2 <= id < |start.queues| && c.dest != Queue(id) && c.error != Queue(id) ::
              end.queues[id] == start.queues[id]
    ensures Conserved(Everything(start), end) && SignsDecide(c, start, end)
    ensures remaining == 2 * |end.queues[0]|
  {
    BothRounds(c, start);
    BothRoundsBySign(c, start);
    forall id | 2 <= id < |start.queues| && c.dest != Queue(id) && c.error != Queue(id) {
      OthersUnchanged(c, start, id);
    }
    hide Conserved, FirstCalls, SecondCalls, Routed, SignsDecide;
    end := start;
    for iter := 0 to 2
      invariant WellFormed(c, end)
      invariant end == if iter == 0 then start
                       else if iter == 1 then Drain(c, 0, start) else Drain(c, 1, Drain(c, 0, start))
    {
      ghost var goal := Drain(c, iter, end);
      while end.queues[iter] != []
        invariant WellFormed(c, end) && Drain(c, iter, end) == goal
        decreases |end.queues[iter]|
      {
        StepDelivers(c, iter, end);
        end := Step(c, iter, end);
      }
    }
    remaining := |end.queues[0]| + |end.queues[0]|;
  }
}
