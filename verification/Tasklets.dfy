// The tasklet queue: a singly linked list with a tail that points at the last next field,
// drained by a loop that interrupts may enter again.
module Tasklets {
  import opened Wrappers

  class Tasklet {
    var next: Tasklet?
    const state: nat

    constructor (priority: nat)
      ensures state == priority
    {
      state := priority;
      next := null;
    }
  }

  /** A `struct tasklet_struct **`: the head field of the queue or the next field of a node. */
  datatype Slot = HeadField | NextOf(node: Tasklet)

  /** What happens while a handler runs: an interrupt queues a tasklet, or the handler returns. */
  datatype Event = Arrive(tl: Tasklet) | Done

  /** One handler call: the queue it was chosen from and the priorities active once it runs. */
  datatype Entry = Entry(tl: Tasklet, queue: seq<Tasklet>, stack: seq<nat>)

  // ---- the choice ----------------------------------------------------------

  /** The position selected after scanning the first n nodes. */
  function BestUpTo(q: seq<Tasklet>, prev: nat, n: nat): (b: Option<nat>)
    requires n <= |q|
    ensures b.Some? ==> b.value < n
  {
    if n == 0 then None
    else
      var b := BestUpTo(q, prev, n - 1);
      if q[n - 1].state > (if b.Some? then q[b.value].state else prev) then Some(n - 1) else b
  }

  function Best(q: seq<Tasklet>, prev: nat): Option<nat> {
    BestUpTo(q, prev, |q|)
  }

  /** The highest priority above prev, and the first queued among equals. */
  ghost predicate IsBest(q: seq<Tasklet>, prev: nat, k: nat) {
    && k < |q| && q[k].state > prev
    && (forall j :: 0 <= j < |q| ==> q[j].state <= q[k].state)
    && (forall j :: 0 <= j < k ==> q[j].state < q[k].state)
  }

  lemma {:induction false} BestUpToIsBest(q: seq<Tasklet>, prev: nat, n: nat)
    requires n <= |q|
    ensures match BestUpTo(q, prev, n)
            case None => forall j :: 0 <= j < n ==> q[j].state <= prev
            case Some(k) => IsBest(q[..n], prev, k)
  {
    if n > 0 {
      BestUpToIsBest(q, prev, n - 1);
      assert forall j :: 0 <= j < n - 1 ==> q[..n][j] == q[..n - 1][j];
    }
  }

  lemma BestIsBest(q: seq<Tasklet>, prev: nat)
    ensures match Best(q, prev)
            case None => forall j :: 0 <= j < |q| ==> q[j].state <= prev
            case Some(k) => IsBest(q, prev, k)
  {
    BestUpToIsBest(q, prev, |q|);
    assert q[..|q|] == q;
  }

  // ---- do_tasklet on values ------------------------------------------------

  datatype World = World(q: seq<Tasklet>, events: seq<Event>, log: seq<Entry>, legal: bool) {
    function Size(): nat { 2 * |events| + |q| }
  }

  function Without(q: seq<Tasklet>, k: nat): seq<Tasklet>
    requires k < |q|
  {
    q[..k] + q[k + 1..]
  }

  /** do_tasklet entered at priority prev, with `stack` the priorities of the handlers under it. */
  function Drain(w: World, prev: nat, stack: seq<nat>): (r: World)
    ensures r.Size() <= w.Size()
    decreases w.Size(), 1
  {
    match Best(w.q, prev)
    case None => w
    case Some(k) =>
      var t := w.q[k];
      var s := stack + [t.state];
      Drain(Handle(World(Without(w.q, k), w.events, w.log + [Entry(t, w.q, s)], w.legal), t.state, s), prev, stack)
  }

  /** A handler of priority prio runs; every interrupt queues its tasklet and drains above prio.
      Queueing a tasklet that is still queued is not legal. */
  function Handle(w: World, prio: nat, stack: seq<nat>): (r: World)
    ensures r.Size() <= w.Size()
    decreases w.Size(), 2
  {
    if w.events == [] then w
    else
      var rest := w.(events := w.events[1..]);
      match w.events[0]
      case Done => rest
      case Arrive(t) =>
        if t in w.q then Handle(rest.(legal := false), prio, stack)
        else Handle(Drain(rest.(q := w.q + [t]), prio, stack), prio, stack)
  }

  // ---- what a drain achieves -----------------------------------------------

  /** The part of s above p, or the part that is not, in order. */
  function Part(s: seq<Tasklet>, p: nat, above: bool): seq<Tasklet> {
    if s == [] then []
    else
      var rest := Part(s[1..], p, above);
      if (s[0].state > p) == above then [s[0]] + rest else rest
  }

  function Low(s: seq<Tasklet>, p: nat): seq<Tasklet> { Part(s, p, false) }

  function Above(s: seq<Tasklet>, p: nat): seq<Tasklet> { Part(s, p, true) }

  function Arrivals(events: seq<Event>): seq<Tasklet> {
    if events == [] then []
    else (if events[0].Arrive? then [events[0].tl] else []) + Arrivals(events[1..])
  }

  function Ran(log: seq<Entry>): seq<Tasklet> {
    if log == [] then [] else [log[0].tl] + Ran(log[1..])
  }

  lemma {:induction false} PartAppend(a: seq<Tasklet>, b: seq<Tasklet>, p: nat, above: bool)
    ensures Part(a + b, p, above) == Part(a, p, above) + Part(b, p, above)
  {
    if a == [] {
      assert a + b == b;
    } else {
      PartAppend(a[1..], b, p, above);
      assert (a + b)[1..] == a[1..] + b && (a + b)[0] == a[0];
      var u, v := Part(a[1..], p, above), Part(b, p, above);
      assert [a[0]] + (u + v) == ([a[0]] + u) + v;
    }
  }

  lemma LowAppend(a: seq<Tasklet>, b: seq<Tasklet>, p: nat)
    ensures Low(a + b, p) == Low(a, p) + Low(b, p)
  {
    PartAppend(a, b, p, false);
  }

  lemma AboveAppend(a: seq<Tasklet>, b: seq<Tasklet>, p: nat)
    ensures Above(a + b, p) == Above(a, p) + Above(b, p)
  {
    PartAppend(a, b, p, true);
  }

  lemma {:induction false} ArrivalsAppend(a: seq<Event>, b: seq<Event>)
    ensures Arrivals(a + b) == Arrivals(a) + Arrivals(b)
  {
    if a == [] {
      assert a + b == b;
    } else {
      ArrivalsAppend(a[1..], b);
      var s, first := a + b, if a[0].Arrive? then [a[0].tl] else [];
      assert s[1..] == a[1..] + b && s[0] == a[0];
      assert first + (Arrivals(a[1..]) + Arrivals(b)) == (first + Arrivals(a[1..])) + Arrivals(b);
    }
  }

  lemma {:induction false} RanAppend(a: seq<Entry>, b: seq<Entry>)
    ensures Ran(a + b) == Ran(a) + Ran(b)
  {
    if a == [] {
      assert a + b == b;
    } else {
      RanAppend(a[1..], b);
      assert (a + b)[1..] == a[1..] + b && (a + b)[0] == a[0];
      assert [a[0].tl] + (Ran(a[1..]) + Ran(b)) == ([a[0].tl] + Ran(a[1..])) + Ran(b);
    }
  }

  lemma {:induction false} LowAll(s: seq<Tasklet>, p: nat)
    requires forall i :: 0 <= i < |s| ==> s[i].state <= p
    ensures Low(s, p) == s && Above(s, p) == []
  {
    if s != [] { LowAll(s[1..], p); }
  }

  /** Filtering at a higher priority first makes no difference to the low part. */
  lemma {:induction false} LowLow(s: seq<Tasklet>, p: nat, q: nat)
    requires p <= q
    ensures Low(Low(s, q), p) == Low(s, p)
    ensures forall i :: 0 <= i < |Low(s, q)| ==> Low(s, q)[i].state <= q
  {
    if s != [] {
      LowLow(s[1..], p, q);
      if s[0].state <= q { LowAppend([s[0]], Low(s[1..], q), p); }
    }
  }

  /** It splits the high part in two. */
  lemma {:induction false} AboveSplit(s: seq<Tasklet>, p: nat, q: nat)
    requires p <= q
    ensures multiset(Above(s, p)) == multiset(Above(s, q)) + multiset(Above(Low(s, q), p))
  {
    if s != [] {
      AboveSplit(s[1..], p, q);
      if s[0].state <= q { AboveAppend([s[0]], Low(s[1..], q), p); }
    }
  }

  /** Removing a node above p. */
  lemma LowWithout(s: seq<Tasklet>, k: nat, p: nat)
    requires k < |s| && s[k].state > p
    ensures Low(Without(s, k), p) == Low(s, p)
  {
    var a, t, b := s[..k], s[k], s[k + 1..];
    assert s == a + ([t] + b);
    LowAppend(a, [t] + b, p);
    LowAppend([t], b, p);
    LowAppend(a, b, p);
  }

  lemma AboveWithout(s: seq<Tasklet>, k: nat, p: nat)
    requires k < |s| && s[k].state > p
    ensures multiset(Above(s, p)) == multiset(Above(Without(s, k), p)) + multiset{s[k]}
  {
    var a, t, b := s[..k], s[k], s[k + 1..];
    assert s == a + ([t] + b);
    AboveAppend(a, [t] + b, p);
    AboveAppend([t], b, p);
    AboveAppend(a, b, p);
  }

  ghost predicate Increasing(stack: seq<nat>) {
    forall i, j :: 0 <= i < j < |stack| ==> stack[i] < stack[j]
  }

  /** The handler was the best choice above the priority under it, and priorities increase up the stack. */
  ghost predicate EntryOk(e: Entry) {
    && |e.stack| >= 2 && Increasing(e.stack) && e.stack[|e.stack| - 1] == e.tl.state
    && exists k: nat :: IsBest(e.queue, e.stack[|e.stack| - 2], k) && e.queue[k] == e.tl
  }

  /** From w to r the events ev were consumed and the handlers `ran` were called. */
  ghost predicate Progress(w: World, r: World, ev: seq<Event>, ran: seq<Entry>) {
    && w.events == ev + r.events && r.log == w.log + ran
    && (r.legal ==> w.legal)
    && forall i :: 0 <= i < |ran| ==> EntryOk(ran[i])
  }

  /** A drain at priority prev runs everything above prev exactly once and leaves the rest in order. */
  ghost predicate Drained(w: World, r: World, prev: nat, ev: seq<Event>, ran: seq<Entry>) {
    && Progress(w, r, ev, ran)
    && (r.legal ==>
          && r.q == Low(w.q + Arrivals(ev), prev)
          && multiset(Ran(ran)) == multiset(Above(w.q + Arrivals(ev), prev)))
  }

  lemma {:induction false} DrainWorks(w: World, prev: nat, stack: seq<nat>) returns (ev: seq<Event>, ran: seq<Entry>)
    requires stack != [] && Increasing(stack) && stack[|stack| - 1] == prev
    ensures Drained(w, Drain(w, prev, stack), prev, ev, ran)
    decreases w.Size(), 1
  {
    BestIsBest(w.q, prev);
    Empties(prev);
    match Best(w.q, prev)
    case None =>
      ev, ran := [], [];
      LowAll(w.q, prev);
      assert w.q + [] == w.q;
    case Some(k) =>
      var t := w.q[k];
      var s := stack + [t.state];
      var e := Entry(t, w.q, s);
      var w1 := World(Without(w.q, k), w.events, w.log + [e], w.legal);
      ChosenOk(w.q, prev, k, stack);
      ProgressOne(w, w1, e);
      hide EntryOk, Low, Above, Arrivals, Ran, IsBest, Progress, Increasing;
      var ev1, ran1 := HandleWorks(w1, t.state, s);
      var w2 := Handle(w1, t.state, s);
      var ev2, ran2 := DrainWorks(w2, prev, stack);
      ev, ran := ev1 + ev2, [e] + ran1 + ran2;
      var r := Drain(w2, prev, stack);
      ProgressTrans(w, w1, w2, [], [e], ev1, ran1);
      ProgressTrans(w, w2, r, [] + ev1, [e] + ran1, ev2, ran2);
      assert [] + ev1 == ev1;
      if r.legal {
        RoundLow(w.q, k, prev, ev1, ev2);
        RoundWorks(w.q, k, prev, ev1, ran1, ev2, ran2, e);
      }
  }

  lemma ProgressOne(w: World, w1: World, e: Entry)
    requires w1.events == w.events && w1.log == w.log + [e] && w1.legal == w.legal && EntryOk(e)
    ensures Progress(w, w1, [], [e])
  {
  }

  lemma ProgressTrans(w: World, u: World, r: World, ev1: seq<Event>, ran1: seq<Entry>, ev2: seq<Event>, ran2: seq<Entry>)
    requires Progress(w, u, ev1, ran1) && Progress(u, r, ev2, ran2)
    ensures Progress(w, r, ev1 + ev2, ran1 + ran2) && (r.legal ==> u.legal)
  {
  }

  lemma ChosenOk(q: seq<Tasklet>, prev: nat, k: nat, stack: seq<nat>)
    requires IsBest(q, prev, k) && stack != [] && Increasing(stack) && stack[|stack| - 1] == prev
    ensures var s := stack + [q[k].state]; Increasing(s) && EntryOk(Entry(q[k], q, s))
    ensures forall i :: 0 <= i < |Without(q, k)| ==> Without(q, k)[i].state <= q[k].state
    ensures q[k].state > prev
  {
    var s := stack + [q[k].state];
    assert s[|s| - 2] == prev;
  }

  lemma Empties(p: nat)
    ensures Arrivals([]) == [] && Ran([]) == [] && Arrivals([Done]) == []
    ensures Low([], p) == [] && Above([], p) == []
  {
  }

  /** A handler at priority prio, over a queue without anything above prio. */
  lemma {:induction false} HandleWorks(w: World, prio: nat, stack: seq<nat>) returns (ev: seq<Event>, ran: seq<Entry>)
    requires stack != [] && Increasing(stack) && stack[|stack| - 1] == prio
    requires w.legal ==> forall i :: 0 <= i < |w.q| ==> w.q[i].state <= prio
    ensures Progress(w, Handle(w, prio, stack), ev, ran)
    ensures Handle(w, prio, stack).legal ==>
              && Handle(w, prio, stack).q == w.q + Low(Arrivals(ev), prio)
              && multiset(Ran(ran)) == multiset(Above(Arrivals(ev), prio))
    decreases w.Size(), 2
  {
    Empties(prio);
    hide EntryOk, Low, Above, Arrivals, Ran, Progress, Increasing;
    if w.events == [] {
      ev, ran := [], [];
      ProgressNone(w);
    } else {
      var ev0, rest := [w.events[0]], w.(events := w.events[1..]);
      var r := Handle(w, prio, stack);
      match w.events[0]
      case Done =>
        ev, ran := ev0, [];
        ProgressEvent(w, rest, Done);
      case Arrive(t) =>
        if t in w.q {
          var w1 := rest.(legal := false);
          var ev1, ran1 := HandleWorks(w1, prio, stack);
          ev, ran := ev0 + ev1, [] + ran1;
          ProgressEvent(w, w1, w.events[0]);
          ProgressTrans(w, w1, r, ev0, [], ev1, ran1);
        } else {
          var w1 := rest.(q := w.q + [t]);
          var ev1, ran1 := DrainWorks(w1, prio, stack);
          var w2 := Drain(w1, prio, stack);
          if w2.legal { LowLow(w1.q + Arrivals(ev1), prio, prio); }
          var ev2, ran2 := HandleWorks(w2, prio, stack);
          ev, ran := ev0 + ev1 + ev2, ran1 + ran2;
          ProgressEvent(w, w1, w.events[0]);
          ProgressTrans(w, w1, w2, ev0, [], ev1, ran1);
          ProgressTrans(w, w2, r, ev0 + ev1, [] + ran1, ev2, ran2);
          assert [] + ran1 == ran1;
          if r.legal {
            InterruptLow(w.q, t, prio, ev0, ev1, ev2);
            InterruptRan(w.q, t, prio, ev0, ev1, ran1, ev2, ran2);
          }
        }
    }
  }

  lemma ProgressNone(w: World)
    ensures Progress(w, w, [], [])
  {
  }

  lemma ProgressEvent(w: World, w1: World, e: Event)
    requires w.events == [e] + w1.events && w1.log == w.log && (w1.legal ==> w.legal)
    ensures Progress(w, w1, [e], [])
  {
  }

  /** One turn of the drain loop: what stays queued. */
  lemma RoundLow(q: seq<Tasklet>, k: nat, prev: nat, ev1: seq<Event>, ev2: seq<Event>)
    requires k < |q| && q[k].state > prev
    ensures var q2 := Without(q, k) + Low(Arrivals(ev1), q[k].state);
            Low(q2 + Arrivals(ev2), prev) == Low(q + Arrivals(ev1 + ev2), prev)
  {
    var a1, a2, q1 := Arrivals(ev1), Arrivals(ev2), Without(q, k);
    var l := Low(a1, q[k].state);
    LowLow(a1, prev, q[k].state);
    LowWithout(q, k, prev);
    ArrivalsAppend(ev1, ev2);
    hide Low, Arrivals, Without;
    LowAppend(q1 + l, a2, prev);
    LowAppend(q1, l, prev);
    LowAppend(q, a1 + a2, prev);
    LowAppend(a1, a2, prev);
  }

  /** One turn of the drain loop: the chosen node, its handler, and the rest of the drain. */
  lemma RoundWorks(q: seq<Tasklet>, k: nat, prev: nat, ev1: seq<Event>, ran1: seq<Entry>,
                   ev2: seq<Event>, ran2: seq<Entry>, e: Entry)
    requires k < |q| && q[k].state > prev && e.tl == q[k]
    requires multiset(Ran(ran1)) == multiset(Above(Arrivals(ev1), q[k].state))
    requires var q2 := Without(q, k) + Low(Arrivals(ev1), q[k].state);
             multiset(Ran(ran2)) == multiset(Above(q2 + Arrivals(ev2), prev))
    ensures multiset(Ran([e] + ran1 + ran2)) == multiset(Above(q + Arrivals(ev1 + ev2), prev))
  {
    var t, a1, a2, q1 := q[k], Arrivals(ev1), Arrivals(ev2), Without(q, k);
    var l := Low(a1, t.state);
    AboveSplit(a1, prev, t.state);
    AboveWithout(q, k, prev);
    ArrivalsAppend(ev1, ev2);
    assert Ran([e]) == [t];
    hide Low, Above, Ran, Arrivals, Without;
    AboveAppend(q1 + l, a2, prev);
    AboveAppend(q1, l, prev);
    AboveAppend(q, a1 + a2, prev);
    AboveAppend(a1, a2, prev);
    RanAppend([e] + ran1, ran2);
    RanAppend([e], ran1);
  }

  /** One interrupt inside a handler: its own drain, and what the handler still sees. */
  lemma InterruptLow(q: seq<Tasklet>, t: Tasklet, prio: nat, ev0: seq<Event>, ev1: seq<Event>, ev2: seq<Event>)
    requires ev0 == [Arrive(t)] && forall i :: 0 <= i < |q| ==> q[i].state <= prio
    ensures Low(q + [t] + Arrivals(ev1), prio) + Low(Arrivals(ev2), prio) == q + Low(Arrivals(ev0 + ev1 + ev2), prio)
  {
    var a1, a2 := Arrivals(ev1), Arrivals(ev2);
    assert Arrivals(ev0) == [t];
    LowAll(q, prio);
    hide Low, Arrivals;
    ArrivalsAppend(ev0 + ev1, ev2);
    ArrivalsAppend(ev0, ev1);
    LowAppend([t] + a1, a2, prio);
    LowAppend(q, [t] + a1, prio);
    assert q + [t] + a1 == q + ([t] + a1);
  }

  lemma InterruptRan(q: seq<Tasklet>, t: Tasklet, prio: nat, ev0: seq<Event>, ev1: seq<Event>, ran1: seq<Entry>,
                     ev2: seq<Event>, ran2: seq<Entry>)
    requires ev0 == [Arrive(t)] && forall i :: 0 <= i < |q| ==> q[i].state <= prio
    requires multiset(Ran(ran1)) == multiset(Above(q + [t] + Arrivals(ev1), prio))
    requires multiset(Ran(ran2)) == multiset(Above(Arrivals(ev2), prio))
    ensures multiset(Ran(ran1 + ran2)) == multiset(Above(Arrivals(ev0 + ev1 + ev2), prio))
  {
    var a1, a2 := Arrivals(ev1), Arrivals(ev2);
    ArrivalsThree(t, ev0, ev1, ev2);
    LowAll(q, prio);
    hide Low, Above, Ran, Arrivals;
    AboveAppend([t] + a1, a2, prio);
    AboveSkip(q, [t] + a1, prio);
    assert q + [t] + a1 == q + ([t] + a1);
    RanAppend(ran1, ran2);
  }

  lemma AboveSkip(q: seq<Tasklet>, s: seq<Tasklet>, p: nat)
    requires Above(q, p) == []
    ensures Above(q + s, p) == Above(s, p)
  {
    AboveAppend(q, s, p);
  }

  lemma ArrivalsThree(t: Tasklet, ev0: seq<Event>, ev1: seq<Event>, ev2: seq<Event>)
    requires ev0 == [Arrive(t)]
    ensures Arrivals(ev0 + ev1 + ev2) == [t] + Arrivals(ev1) + Arrivals(ev2)
  {
    ArrivalsAppend(ev0 + ev1, ev2);
    ArrivalsAppend(ev0, ev1);
    assert Arrivals(ev0) == [t];
  }

  // ---- which events are consumed -------------------------------------------

  /** How many handlers return within these events. */
  function Dones(events: seq<Event>): nat {
    if events == [] then 0 else (if events[0].Done? then 1 else 0) + Dones(events[1..])
  }

  lemma {:induction false} DonesAppend(a: seq<Event>, b: seq<Event>)
    ensures Dones(a + b) == Dones(a) + Dones(b)
  {
    if a == [] {
      assert a + b == b;
    } else {
      DonesAppend(a[1..], b);
      assert (a + b)[1..] == a[1..] + b;
    }
  }

  /** r is reached from w by consuming events, the last of them a return. */
  ghost predicate Consumed(w: World, r: World) {
    && |r.events| <= |w.events| && w.events[|w.events| - |r.events|..] == r.events
    && |w.log| <= |r.log|
    && (0 < |r.events| < |w.events| ==> w.events[|w.events| - |r.events| - 1].Done?)
  }

  lemma ConsumedTrans(w: World, u: World, r: World)
    requires Consumed(w, u) && Consumed(u, r)
    ensures Consumed(w, r)
  {
    var n := |w.events| - |u.events|;
    assert w.events[|w.events| - |r.events|..] == w.events[n..][|u.events| - |r.events|..];
    if 0 < |r.events| < |u.events| {
      assert w.events[n..][|u.events| - |r.events| - 1] == w.events[|w.events| - |r.events| - 1];
    }
  }

  /** Unless the events run out, a drain consumes exactly one return for each handler it calls. */
  lemma {:induction false} DrainCount(w: World, prev: nat, stack: seq<nat>)
    ensures var r := Drain(w, prev, stack);
            && Consumed(w, r)
            && Dones(w.events) <= Dones(r.events) + |r.log| - |w.log|
            && (r.events != [] ==> Dones(w.events) == Dones(r.events) + |r.log| - |w.log|)
    decreases w.Size(), 1
  {
    hide Dones, Consumed;
    match Best(w.q, prev)
    case None => ConsumedSame(w);
    case Some(k) =>
      var t, s := w.q[k], stack + [w.q[k].state];
      var w1 := World(Without(w.q, k), w.events, w.log + [Entry(t, w.q, s)], w.legal);
      HandleCount(w1, t.state, s);
      DrainCount(Handle(w1, t.state, s), prev, stack);
      ConsumedLog(w, w1);
      ConsumedTrans(w, w1, Handle(w1, t.state, s));
      ConsumedTrans(w, Handle(w1, t.state, s), Drain(w, prev, stack));
      NoneLeft(w, Handle(w1, t.state, s), Drain(w, prev, stack));
  }

  /** A handler consumes one return for each handler it is interrupted by, and then its own. */
  lemma {:induction false} HandleCount(w: World, prio: nat, stack: seq<nat>)
    ensures var r := Handle(w, prio, stack);
            && Consumed(w, r)
            && Dones(w.events) <= Dones(r.events) + |r.log| - |w.log| + 1
            && (r.events != [] ==> Dones(w.events) == Dones(r.events) + |r.log| - |w.log| + 1)
            && (r.events != [] ==> |r.events| < |w.events|)
    decreases w.Size(), 2
  {
    if w.events == [] {
    } else {
      var rest, r := w.(events := w.events[1..]), Handle(w, prio, stack);
      match w.events[0]
      case Done =>
      case Arrive(t) =>
        hide Drain, Handle;
        HandleArrive(w, prio, stack);
        if t in w.q {
          HandleCount(rest.(legal := false), prio, stack);
          ConsumedArrive(w, rest.(legal := false), r);
        } else {
          var w1 := rest.(q := w.q + [t]);
          var w2 := Drain(w1, prio, stack);
          DrainCount(w1, prio, stack);
          HandleCount(w2, prio, stack);
          NoneLeft(w1, w2, r);
          ConsumedTrans(w1, w2, r);
          ConsumedArrive(w, w1, r);
        }
    }
  }

  lemma HandleArrive(w: World, prio: nat, stack: seq<nat>)
    requires w.events != [] && w.events[0].Arrive?
    ensures var rest, t := w.(events := w.events[1..]), w.events[0].tl;
            Handle(w, prio, stack) ==
            if t in w.q then Handle(rest.(legal := false), prio, stack)
            else Handle(Drain(rest.(q := w.q + [t]), prio, stack), prio, stack)
    ensures Dones(w.events) == Dones(w.events[1..])
  {
  }

  lemma ConsumedSame(w: World)
    ensures Consumed(w, w)
  {
  }

  lemma ConsumedLog(w: World, w1: World)
    requires w1.events == w.events && |w1.log| >= |w.log|
    ensures Consumed(w, w1)
  {
  }

  lemma ConsumedArrive(w: World, w1: World, r: World)
    requires w.events != [] && w1.events == w.events[1..] && |w1.log| == |w.log|
    requires Consumed(w1, r) && (r.events != [] ==> |r.events| < |w1.events|)
    ensures Consumed(w, r)
  {
    assert w.events[|w.events| - |r.events|..] == w1.events[|w1.events| - |r.events|..];
  }

  lemma NoneLeft(w: World, u: World, r: World)
    requires Consumed(w, u) && Consumed(u, r)
    ensures r.events != [] ==> u.events != []
  {
  }

  // ---- the same without recursion ------------------------------------------

  /** A machine that takes the events one at a time.  stack holds the priorities of the active handlers above the
      entry priority; draining says whether do_tasklet is choosing or the top handler is running.  It stops when
      only d priorities are left and nothing is above the last. */
  ghost function Machine(w: World, stack: seq<nat>, draining: bool, d: nat): World
    requires 0 < d <= |stack|
    decreases w.Size(), |stack|, draining
  {
    var top := stack[|stack| - 1];
    if draining then
      match Best(w.q, top)
      case Some(k) =>
        var s := stack + [w.q[k].state];
        Machine(World(Without(w.q, k), w.events, w.log + [Entry(w.q[k], w.q, s)], w.legal), s, false, d)
      case None => if |stack| == d then w else Machine(w, stack, false, d)
    else if |stack| == d then w
    else if w.events == [] then Machine(w, stack[..|stack| - 1], true, d)
    else
      var rest := w.(events := w.events[1..]);
      match w.events[0]
      case Done => Machine(rest, stack[..|stack| - 1], true, d)
      case Arrive(t) =>
        if t in w.q then Machine(rest.(legal := false), stack, false, d)
        else Machine(rest.(q := w.q + [t]), stack, true, d)
  }

  /** Entering do_tasklet again from inside a handler is the machine choosing with that handler on its stack. */
  lemma {:induction false} DrainIsMachine(w: World, stack: seq<nat>, d: nat)
    requires 0 < d <= |stack|
    ensures var r := Drain(w, stack[|stack| - 1], stack);
            Machine(w, stack, true, d) == if |stack| == d then r else Machine(r, stack, false, d)
    decreases w.Size(), 1
  {
    var prev := stack[|stack| - 1];
    match Best(w.q, prev)
    case None =>
    case Some(k) =>
      var s := stack + [w.q[k].state];
      var w1 := World(Without(w.q, k), w.events, w.log + [Entry(w.q[k], w.q, s)], w.legal);
      HandleIsMachine(w1, s, d);
      assert s[..|s| - 1] == stack;
      DrainIsMachine(Handle(w1, w.q[k].state, s), stack, d);
  }

  lemma {:induction false} HandleIsMachine(w: World, stack: seq<nat>, d: nat)
    requires 0 < d < |stack|
    ensures Machine(w, stack, false, d) ==
            Machine(Handle(w, stack[|stack| - 1], stack), stack[..|stack| - 1], true, d)
    decreases w.Size(), 2
  {
    var prio := stack[|stack| - 1];
    if w.events != [] && w.events[0].Arrive? {
      var t, rest := w.events[0].tl, w.(events := w.events[1..]);
      if t in w.q {
        HandleIsMachine(rest.(legal := false), stack, d);
      } else {
        DrainIsMachine(rest.(q := w.q + [t]), stack, d);
        HandleIsMachine(Drain(rest.(q := w.q + [t]), prio, stack), stack, d);
      }
    }
  }

  // ---- the theorem ---------------------------------------------------------

  /** do_tasklet at entry priority prev: the events it consumes and the handlers it calls.  Unless the events run
      out it consumes exactly one return for each handler, the last event consumed being a return, and it is the
      machine run from the entry priority alone. */
  lemma DrainTheorem(w: World, prev: nat)
    ensures var r := Drain(w, prev, [prev]);
            && |r.events| <= |w.events| && |w.log| <= |r.log|
            && var ev, ran := w.events[..|w.events| - |r.events|], r.log[|w.log|..];
               && Drained(w, r, prev, ev, ran)
               && Dones(ev) <= |ran|
               && (r.events != [] ==> Dones(ev) == |ran| && (ev != [] ==> ev[|ev| - 1].Done?))
    ensures Machine(w, [prev], true, 1) == Drain(w, prev, [prev])
  {
    var ev, ran := DrainWorks(w, prev, [prev]);
    var r := Drain(w, prev, [prev]);
    assert w.events[..|ev|] == ev && r.log[|w.log|..] == ran;
    DrainCount(w, prev, [prev]);
    DonesAppend(ev, r.events);
    DrainIsMachine(w, [prev], 1);
    hide Drained, Drain, Machine;
  }

  // ---- the queue in memory -------------------------------------------------

  class TaskletQueue {
    var head: Tasklet?
    var tail: Slot
    var curTlPriority: nat
    ghost const pool: set<Tasklet>
    ghost var q: seq<Tasklet>
    ghost var log: seq<Entry>

    function Deref(s: Slot): Tasklet?
      reads this`head, pool, if s.NextOf? then {s.node} else {}
    {
      match s
      case HeadField => head
      case NextOf(n) => n.next
    }

    ghost function SlotAt(i: nat): Slot
      reads this`q
      requires i <= |q|
    {
      if i == 0 then HeadField else NextOf(q[i - 1])
    }

    ghost predicate LinkAt(i: nat)
      reads this`head, this`q, pool
      requires i <= |q| && forall j :: 0 <= j < |q| ==> q[j] in pool
    {
      Deref(SlotAt(i)) == if i < |q| then q[i] else null
    }

    /** head and the next fields spell out q, and tail is the last slot. */
    ghost predicate Valid()
      reads this`head, this`q, this`tail, pool
    {
      && (forall j :: 0 <= j < |q| ==> q[j] in pool)
      && (forall i, j :: 0 <= i < j < |q| ==> q[i] != q[j])
      && (forall i: nat :: i <= |q| ==> LinkAt(i))
      && tail == SlotAt(|q|)
    }

    /** tasklet_init */
    constructor (ghost pool: set<Tasklet>)
      ensures Valid() && q == [] && log == [] && curTlPriority == 0 && this.pool == pool
    {
      head := null;
      tail := HeadField;
      curTlPriority := 0;
      this.pool := pool;
      q := [];
      log := [];
    }

    /** *slot = tl */
    method Assign(s: Slot, tl: Tasklet?)
      requires s.NextOf? ==> s.node in pool
      modifies this`head, pool
      ensures Deref(s) == tl
      ensures s.NextOf? ==> head == old(head)
      ensures forall t :: t in pool && s != NextOf(t) ==> t.next == old(t.next)
    {
      match s
      case HeadField => head := tl;
      case NextOf(n) => n.next := tl;
    }

    /** tasklet_add */
    method TaskletAdd(tl: Tasklet)
      requires Valid() && tl in pool && tl !in q
      modifies this, pool
      ensures Valid() && q == old(q) + [tl] && log == old(log) && curTlPriority == old(curTlPriority)
    {
      ghost var n := |q|;
      assert LinkAt(n);
      tl.next := null;
      Assign(tail, tl);
      tail := NextOf(tl);
      q := q + [tl];
      forall i: nat | i <= |q| ensures LinkAt(i) {
        assert i <= n ==> old(LinkAt(i));
      }
    }

    /** The scan of do_tasklet: curTlPriority climbs to the best state above prev. */
    method Select(prev: nat) returns (tl: Slot, todo: bool)
      requires Valid() && curTlPriority == prev
      modifies this`curTlPriority
      ensures Valid()
      ensures match Best(q, prev)
              case None => !todo && curTlPriority == prev
              case Some(k) => todo && tl == SlotAt(k) && curTlPriority == q[k].state
    {
      tl := HeadField;
      var iter := HeadField;
      todo := false;
      ghost var i: nat := 0;
      assert LinkAt(0);
      while Deref(iter) != null
        invariant Valid() && i <= |q| && iter == SlotAt(i) && LinkAt(i)
        invariant match BestUpTo(q, prev, i)
                  case None => !todo && curTlPriority == prev
                  case Some(k) => todo && tl == SlotAt(k) && curTlPriority == q[k].state > prev
        decreases |q| - i
      {
        var t: Tasklet := Deref(iter);
        if t.state > prev && t.state > curTlPriority {
          curTlPriority := t.state;
          tl := iter;
          todo := true;
        }
        iter := NextOf(t);
        i := i + 1;
        assert LinkAt(i);
      }
    }

    /** Unlink the node a slot points to, moving tail when it was the last one. */
    method Unlink(tl: Slot, ghost k: nat) returns (t: Tasklet)
      requires Valid() && k < |q| && tl == SlotAt(k)
      modifies this, pool
      ensures Valid() && t == old(q)[k] && q == Without(old(q), k)
      ensures log == old(log) && curTlPriority == old(curTlPriority)
    {
      assert LinkAt(k) && LinkAt(k + 1);
      t := Deref(tl);
      if t.next == null { tail := tl; }
      Assign(tl, t.next);
      q := Without(q, k);
      forall i: nat | i <= |q| ensures LinkAt(i) {
        assert old(LinkAt(if i <= k then i else i + 1));
        assert i == k ==> old(LinkAt(k + 1));
      }
    }

    ghost function Here(events: seq<Event>): World
      reads this
    {
      World(q, events, log, true)
    }

    ghost predicate Known(events: seq<Event>) {
      forall i :: 0 <= i < |events| && events[i].Arrive? ==> events[i].tl in pool
    }

    /** do_tasklet.  `events` is what happens while its handlers run; the queue, the log of handler
        calls and the remaining events come out as Drain says, and the priority is restored. */
    method DoTasklet(events: seq<Event>, ghost stack: seq<nat>) returns (rest: seq<Event>)
      requires Valid() && Known(events) && Drain(Here(events), curTlPriority, stack).legal
      modifies this, pool
      ensures Valid() && Known(rest) && curTlPriority == old(curTlPriority)
      ensures Here(rest) == old(Drain(Here(events), curTlPriority, stack))
      decreases Here(events).Size(), 1
    {
      var prev := curTlPriority;
      ghost var goal := Drain(Here(events), prev, stack);
      rest := events;
      while true
        invariant Valid() && Known(rest) && curTlPriority == prev
        invariant Drain(Here(rest), prev, stack) == goal && Here(rest).Size() <= old(Here(events).Size())
        decreases Here(rest).Size()
      {
        var tl, todo := Select(prev);
        if !todo { break; }
        ghost var k := Best(q, prev).value;
        ghost var w := Here(rest);
        ghost var s := stack + [q[k].state];
        var t := Unlink(tl, k);
        log := log + [Entry(t, w.q, s)];
        HandleLegal(Here(rest), t.state, s, prev, stack);
        rest := RunHandler(rest, s);
        curTlPriority := prev;
      }
    }

    /** cur_tl->func(cur_tl->data): each interrupt queues its tasklet and enters do_tasklet again. */
    method RunHandler(events: seq<Event>, ghost stack: seq<nat>) returns (rest: seq<Event>)
      requires Valid() && Known(events) && Handle(Here(events), curTlPriority, stack).legal
      modifies this, pool
      ensures Valid() && Known(rest) && curTlPriority == old(curTlPriority)
      ensures Here(rest) == old(Handle(Here(events), curTlPriority, stack))
      decreases Here(events).Size(), 2
    {
      rest := events;
      ghost var goal := Handle(Here(events), curTlPriority, stack);
      while rest != []
        invariant Valid() && Known(rest) && curTlPriority == old(curTlPriority)
        invariant Handle(Here(rest), curTlPriority, stack) == goal && Here(rest).Size() <= old(Here(events).Size())
        decreases Here(rest).Size()
      {
        var e := rest[0];
        ghost var w := Here(rest);
        if e.Done? { return rest[1..]; }
        LegalArrival(w, curTlPriority, stack);
        TaskletAdd(e.tl);
        rest := DoTasklet(rest[1..], stack);
      }
    }
  }

  /** What is not legal stays so. */
  lemma {:induction false} DrainLegal(w: World, prev: nat, stack: seq<nat>)
    ensures Drain(w, prev, stack).legal ==> w.legal
    decreases w.Size(), 1
  {
    match Best(w.q, prev)
    case None =>
    case Some(k) =>
      var s := stack + [w.q[k].state];
      var w1 := World(Without(w.q, k), w.events, w.log + [Entry(w.q[k], w.q, s)], w.legal);
      HandleLegalOnly(w1, w.q[k].state, s);
      DrainLegal(Handle(w1, w.q[k].state, s), prev, stack);
  }

  lemma {:induction false} HandleLegalOnly(w: World, prio: nat, stack: seq<nat>)
    ensures Handle(w, prio, stack).legal ==> w.legal
    decreases w.Size(), 2
  {
    if w.events != [] && w.events[0].Arrive? {
      var rest := w.(events := w.events[1..]);
      var t := w.events[0].tl;
      if t in w.q {
        HandleLegalOnly(rest.(legal := false), prio, stack);
      } else {
        var w1 := rest.(q := w.q + [t]);
        DrainLegal(w1, prio, stack);
        HandleLegalOnly(Drain(w1, prio, stack), prio, stack);
      }
    }
  }

  lemma HandleLegal(w: World, prio: nat, s: seq<nat>, prev: nat, stack: seq<nat>)
    requires Drain(Handle(w, prio, s), prev, stack).legal
    ensures Handle(w, prio, s).legal
  {
    DrainLegal(Handle(w, prio, s), prev, stack);
  }

  lemma LegalArrival(w: World, prio: nat, stack: seq<nat>)
    requires Handle(w, prio, stack).legal && w.events != [] && w.events[0].Arrive?
    ensures w.events[0].tl !in w.q
    ensures Drain(w.(events := w.events[1..], q := w.q + [w.events[0].tl]), prio, stack).legal
  {
    var rest := w.(events := w.events[1..]);
    if w.events[0].tl in w.q {
      HandleLegalOnly(rest.(legal := false), prio, stack);
    } else {
      HandleLegalOnly(Drain(rest.(q := w.q + [w.events[0].tl]), prio, stack), prio, stack);
    }
  }
}
