/** The event queue of src/event.c: events linked through their own next fields, a head and a tail. The tail is
  * left alone when the queue runs empty, so it only means something while there is a head. */
module EventQueue {
  import opened Bytes

  class VEvent {
    var next: VEvent?
    const kind: int
    const reader: int

    constructor (kind: int, reader: int)
      ensures this.kind == kind && this.reader == reader && next == null
    {
      this.kind, this.reader, next := kind, reader, null;
    }
  }

  class Queue {
    var head: VEvent?
    var tail: VEvent?
    ghost var spine: seq<VEvent>
    // every event that came in and every event that went out, in order
    ghost var arrived: seq<VEvent>
    ghost var departed: seq<VEvent>

    /** The event behind position `i`. */
    ghost function After(s: seq<VEvent>, i: nat): VEvent? {
      if i + 1 < |s| then s[i + 1] else null
    }

    /** The events of the spine are linked in order and the last one ends the list. */
    ghost predicate Linked()
      reads this, spine
    {
      && (forall i, j :: 0 <= i < j < |spine| ==> spine[i] != spine[j])
      && (forall i :: 0 <= i < |spine| ==> spine[i].next == After(spine, i))
    }

    ghost predicate Valid()
      reads this, spine
    {
      && Linked()
      && head == (if spine == [] then null else spine[0])
      && (head != null ==> tail == spine[|spine| - 1])
      && arrived == departed + spine
    }

    /** vevent_queue_init */
    constructor ()
      ensures Valid() && spine == [] && arrived == [] && departed == []
    {
      head, tail, spine, arrived, departed := null, null, [], [], [];
    }

    /** vevent_queue_vevent: an event is in the queue at most once. */
    method Enqueue(v: VEvent)
      requires Valid() && v !in spine
      modifies this, v, spine
      ensures Valid() && spine == old(spine) + [v]
      ensures arrived == old(arrived) + [v] && departed == old(departed)
    {
      v.next := null;
      if head != null {
        tail.next := v;
      } else {
        head := v;
      }
      tail := v;
      Assoc(departed, spine, [v]);
      spine := spine + [v];
      arrived := arrived + [v];
    }

    lemma TailIsLinked()
      requires Linked() && spine != []
      ensures var rest := spine[1..];
              && spine[0].next == (if rest == [] then null else rest[0])
              && spine[0] !in rest
              && forall i :: 0 <= i < |rest| ==> rest[i].next == After(rest, i)
      ensures forall i, j :: 0 <= i < j < |spine[1..]| ==> spine[1..][i] != spine[1..][j]
    {
      var rest := spine[1..];
      forall i | 0 <= i < |rest|
        ensures rest[i] != spine[0] && rest[i].next == After(rest, i)
      {
        assert rest[i] == spine[i + 1] && spine[i + 1].next == After(spine, i + 1);
      }
    }

    /** vevent_dequeue_vevent, and vevent_get_next_vevent around it */
    method Dequeue() returns (v: VEvent?)
      requires Valid()
      modifies this, spine
      ensures Valid()
      ensures old(spine) == [] ==> v == null && spine == [] && arrived == old(arrived) && departed == old(departed)
      ensures old(spine) != [] ==> && v == old(spine)[0] && spine == old(spine)[1..] && v.next == null
                                   && arrived == old(arrived) && departed == old(departed) + [v]
                                   && tail == old(tail)
    {
      v := null;
      if head != null {
        v := head;
        assert spine == [spine[0]] + spine[1..];
        Assoc(departed, [v], spine[1..]);
        ghost var rest := spine[1..];
        TailIsLinked();
        head := v.next;
        v.next := null;
        departed := departed + [v];
        spine := rest;
      }
    }
  }

  // ---- Any sequence of operations ----

  datatype Op<T> = Put(value: T) | Take

  /** A queue that is driven by a list of operations: what is left in it and what came out. */
  datatype Played<T> = Played(inside: seq<T>, out: seq<Option<T>>)

  function Play<T>(inside: seq<T>, ops: seq<Op<T>>): Played<T>
    decreases ops
  {
    if ops == [] then Played(inside, [])
    else
      match ops[0]
      case Put(v) => Play(inside + [v], ops[1..])
      case Take =>
        if inside == [] then
          var p := Play([], ops[1..]);
          Played(p.inside, [None] + p.out)
        else
          var p := Play(inside[1..], ops[1..]);
          Played(p.inside, [Some(inside[0])] + p.out)
  }

  function Puts<T>(ops: seq<Op<T>>): seq<T> {
    if ops == [] then [] else (if ops[0].Put? then [ops[0].value] else []) + Puts(ops[1..])
  }

  function Values<T>(out: seq<Option<T>>): seq<T> {
    if out == [] then [] else (if out[0].Some? then [out[0].value] else []) + Values(out[1..])
  }

  /** First in, first out: what came out followed by what is left is what was there followed by what went in. */
  lemma {:induction false} Fifo<T>(inside: seq<T>, ops: seq<Op<T>>)
    ensures var p := Play(inside, ops);
            Values(p.out) + p.inside == inside + Puts(ops)
    decreases ops
  {
    if ops != [] {
      var rest := ops[1..];
      match ops[0] {
        case Put(v) =>
          Fifo(inside + [v], rest);
          Assoc(inside, [v], Puts(rest));
        case Take =>
          if inside == [] {
            Fifo([], rest);
            assert ([None] + Play([], rest).out)[1..] == Play([], rest).out;
          } else {
            Fifo(inside[1..], rest);
            var p := Play(inside[1..], rest);
            assert ([Some(inside[0])] + p.out)[1..] == p.out;
            Assoc([inside[0]], Values(p.out), p.inside);
            Assoc([inside[0]], inside[1..], Puts(rest));
            assert inside == [inside[0]] + inside[1..];
          }
      }
    }
  }

  /** The linked queue driven by the same list: values for new events, and what each take gives. */
  method Drive(q: Queue, ops: seq<Op<(int, int)>>) returns (out: seq<Option<(int, int)>>)
    requires q.Valid() && q.spine == []
    modifies q
    ensures q.Valid() && Played(Contents(q.spine), out) == Play([], ops)
  {
    out := [];
    assert ops[0..] == ops;
    for i := 0 to |ops|
      invariant q.Valid() && forall k :: 0 <= k < |q.spine| ==> fresh(q.spine[k])
      invariant var p := Play(Contents(q.spine), ops[i..]);
                Play([], ops) == Played(p.inside, out + p.out)
    {
      ghost var before := Contents(q.spine);
      ghost var p := Play(before, ops[i..]);
      assert ops[i..][1..] == ops[i + 1..];
      match ops[i] {
        case Put(v) =>
          var e := new VEvent(v.0, v.1);
          q.Enqueue(e);
          assert Contents(q.spine) == before + [v];
        case Take =>
          var e := q.Dequeue();
          if e == null {
            assert before == [];
            Assoc(out, [None], Play([], ops[i + 1..]).out);
            out := out + [None];
          } else {
            assert before[0] == (e.kind, e.reader) && Contents(q.spine) == before[1..];
            Assoc(out, [Some((e.kind, e.reader))], Play(before[1..], ops[i + 1..]).out);
            out := out + [Some((e.kind, e.reader))];
          }
      }
    }
    assert ops[|ops|..] == [];
  }

  ghost function Contents(spine: seq<VEvent>): seq<(int, int)> {
    seq(|spine|, i requires 0 <= i < |spine| => (spine[i].kind, spine[i].reader))
  }

  // ---- Waiting for events ----

  /** Any number of threads in vevent_wait_next_vevent: `trying` are about to look at the queue, `asleep` wait on the
    * condition. Each step holds the queue's lock. */
  datatype Waits = Waits(queue: seq<int>, trying: nat, asleep: nat, added: seq<int>, taken: seq<int>)

  datatype WaitStep =
    | Add(event: int) // vevent_queue_vevent, which signals once
    | Enter // a thread calls vevent_wait_next_vevent
    | Try // one of them looks: it leaves with an event or falls asleep
    | Poll // vevent_get_next_vevent
    | WakeUp // a wakeup without a signal

  predicate CanStep(w: Waits, a: WaitStep) {
    match a
    case Try => w.trying > 0
    case WakeUp => w.asleep > 0
    case _ => true
  }

  function Taken(w: Waits): Waits
    requires w.queue != []
  {
    w.(queue := w.queue[1..], taken := w.taken + [w.queue[0]])
  }

  function StepWaits(w: Waits, a: WaitStep): Waits
    requires CanStep(w, a)
  {
    match a
    case Add(e) =>
      var v := w.(queue := w.queue + [e], added := w.added + [e]);
      if w.asleep > 0 then v.(asleep := w.asleep - 1, trying := w.trying + 1) else v
    case Enter => w.(trying := w.trying + 1)
    case Try =>
      if w.queue == [] then w.(trying := w.trying - 1, asleep := w.asleep + 1)
      else Taken(w).(trying := w.trying - 1)
    case Poll => if w.queue == [] then w else Taken(w)
    case WakeUp => w.(asleep := w.asleep - 1, trying := w.trying + 1)
  }

  predicate CanRun(w: Waits, l: seq<WaitStep>)
    decreases l
  {
    l == [] || (CanStep(w, l[0]) && CanRun(StepWaits(w, l[0]), l[1..]))
  }

  function RunWaits(w: Waits, l: seq<WaitStep>): Waits
    requires CanRun(w, l)
    decreases l
  {
    if l == [] then w else RunWaits(StepWaits(w, l[0]), l[1..])
  }

  /** While anybody sleeps, every event has a thread that is about to look. */
  predicate Served(w: Waits) {
    (w.asleep > 0 ==> |w.queue| <= w.trying) && w.added == w.taken + w.queue
  }

  lemma StepKeepsServed(w: Waits, a: WaitStep)
    requires Served(w) && CanStep(w, a)
    ensures Served(StepWaits(w, a))
  {
    if a.Add? {
      Assoc(w.taken, w.queue, [a.event]);
    } else if w.queue != [] {
      Assoc(w.taken, [w.queue[0]], w.queue[1..]);
      assert w.queue == [w.queue[0]] + w.queue[1..];
    }
  }

  /** No signal is lost, for any number of waiting threads in any interleaving: events leave in arrival order, and once
    * every thread that was about to look has looked, nobody sleeps while an event is there. */
  lemma {:induction false} NobodySleepsOnEvents(w: Waits, l: seq<WaitStep>)
    requires Served(w) && CanRun(w, l)
    ensures var v := RunWaits(w, l);
            && v.added == v.taken + v.queue
            && (v.asleep > 0 ==> |v.queue| <= v.trying)
            && (v.trying == 0 && v.queue != [] ==> v.asleep == 0)
    decreases l
  {
    if l != [] {
      StepKeepsServed(w, l[0]);
      NobodySleepsOnEvents(StepWaits(w, l[0]), l[1..]);
    }
  }
}
