/** What becomes of the events the client takes from its queue (event_thread of src/vscclient.c): read off the
  * messages a run sends, every event is announced, forwarded or dropped, exactly once and in order. */
module Fates {
  import opened Bytes
  import opened Handshake

  /** What an onlooker says became of an event, from the messages alone. */
  datatype Fate =
    | Announced(event: Event) // a ReaderAdd went out
    | Forwarded(event: Event) // a message about this event went out
    | Dropped(event: Event)   // nothing went out

  /** What a step puts on the way to the host. */
  function Told(s: State, a: Action): seq<Message>
    requires Enabled(s, a)
  {
    var t := Step(s, a);
    if a.Thread? && |s.toHost| <= |t.toHost| then t.toHost[|s.toHost|..] else []
  }

  /** What a step takes off the way to the host. */
  function Took(s: State, a: Action): seq<Message>
    requires Enabled(s, a)
  {
    if a.Host? || a.HostAnswersOther? then [s.toHost[0]] else []
  }

  /** A step that brings the event thread back to its queue ends the event at hand. */
  function Ended(s: State, a: Action): seq<Fate>
    requires Enabled(s, a)
  {
    if !a.Thread? || s.place.Idle? || !Step(s, a).place.Idle? then []
    else if Told(s, a) == [ReaderAdd] then [Announced(s.place.event)]
    else if Told(s, a) == [Notice(s.place.event)] then [Forwarded(s.place.event)]
    else [Dropped(s.place.event)]
  }

  /** The event the thread is busy with. */
  function AtHand(s: State): seq<Event> {
    if s.place.Idle? then [] else [s.place.event]
  }

  function Arrived(a: Action): seq<Event> {
    if a.Arrive? then [a.event] else []
  }

  // ---- One step ----

  /** The two tests at which an event is given up: its reader has no id, and is not pending or, after the wait, was not
    * accepted. */
  predicate GivesUp(s: State) {
    match s.place
    case CheckPending(e, _) => s.pending != Some(e.reader)
    case Recheck(e) => IdOf(s, e.reader) == 0xffff_ffff
    case _ => false
  }

  /** How an event ends: a ReaderAdd when it is announced, a message about it when it is forwarded, and nothing exactly
    * at one of the two tests. */
  lemma EndingIs(s: State)
    requires Enabled(s, Thread) && !s.place.Idle?
    ensures var e := s.place.event;
            Ended(s, Thread) == if s.place.Adding? then [Announced(e)]
                                else if s.place.Forward? then [Forwarded(e)]
                                else if GivesUp(s) then [Dropped(e)] else []
  {
  }

  function Events(l: seq<Fate>): (r: seq<Event>)
    ensures |r| == |l|
  {
    seq(|l|, i requires 0 <= i < |l| => l[i].event)
  }

  /** The messages the fates stand for. */
  function Messages(l: seq<Fate>): seq<Message> {
    if l == [] then []
    else Messages(l[..|l| - 1]) + match l[|l| - 1]
                                  case Announced(_) => [ReaderAdd]
                                  case Forwarded(e) => [Notice(e)]
                                  case Dropped(_) => []
  }

  /** The readers announced, and the events forwarded. */
  function Adds(l: seq<Fate>): seq<nat> {
    if l == [] then [] else Adds(l[..|l| - 1]) + if l[|l| - 1].Announced? then [l[|l| - 1].event.reader] else []
  }

  function Notices(l: seq<Fate>): seq<Event> {
    if l == [] then [] else Notices(l[..|l| - 1]) + if l[|l| - 1].Forwarded? then [l[|l| - 1].event] else []
  }

  function Firsts(l: seq<(Event, nat)>): (r: seq<Event>)
    ensures |r| == |l|
  {
    seq(|l|, i requires 0 <= i < |l| => l[i].0)
  }

  /** Only reader insertions are announced, and only other events are forwarded or dropped. */
  predicate Fitting(l: seq<Fate>) {
    forall i :: 0 <= i < |l| ==> (l[i].Announced? <==> l[i].event.kind.ReaderInsert?)
  }

  predicate FittingPlace(s: State) {
    !s.place.Idle? ==> ((s.place.WantSlot? || s.place.Adding?) <==> s.place.event.kind.ReaderInsert?)
  }

  // ---- Any run ----

  /** What a run has done so far, for an onlooker. */
  datatype Seen = Seen(arrived: seq<Event>, fates: seq<Fate>, took: seq<Message>)

  /** The last step of a run is looked at last. */
  function Watch(s: State, actions: seq<Action>): Seen
    requires Runs(s, actions)
    decreases actions
  {
    if actions == [] then Seen([], [], [])
    else
      var rest := Watch(Step(s, actions[0]), actions[1..]);
      Seen(Arrived(actions[0]) + rest.arrived, Ended(s, actions[0]) + rest.fates, Took(s, actions[0]) + rest.took)
  }

  /** The books are right between two states of a run. */
  ghost predicate Balanced(s: State, t: State, w: Seen) {
    && Events(w.fates) + AtHand(t) + t.queue == AtHand(s) + s.queue + w.arrived
    && w.took + t.toHost == s.toHost + Messages(w.fates)
    && t.adds == s.adds + Adds(w.fates)
    && Firsts(t.forwarded) == Firsts(s.forwarded) + Notices(w.fates)
    && FittingPlace(t) && Fitting(w.fates)
  }

  lemma OneFate(f: Fate)
    ensures Events([f]) == [f.event]
    ensures Messages([f]) == match f
                             case Announced(_) => [ReaderAdd]
                             case Forwarded(e) => [Notice(e)]
                             case Dropped(_) => []
    ensures Adds([f]) == (if f.Announced? then [f.event.reader] else [])
    ensures Notices([f]) == (if f.Forwarded? then [f.event] else [])
  {
    assert [f][..0] == [];
    assert Messages([]) == [] && Adds([]) == [] && Notices([]) == [];
  }

  lemma ThreadBalanced(s: State)
    requires Enabled(s, Thread) && FittingPlace(s)
    ensures Balanced(s, Step(s, Thread), Seen([], Ended(s, Thread), []))
  {
    hide Balanced, FittingPlace;
    if s.place.Idle? {
      TakeBalanced(s);
    } else if s.place.Adding? {
      AddBalanced(s);
    } else if s.place.Forward? {
      ForwardBalanced(s);
    } else {
      OtherBalanced(s);
    }
  }

  lemma TakeBalanced(s: State)
    requires Enabled(s, Thread) && FittingPlace(s) && s.place.Idle?
    ensures Balanced(s, Step(s, Thread), Seen([], Ended(s, Thread), []))
  {
    hide Messages, Adds, Notices, Events, Firsts;
    NoFate();
    assert s.queue == [s.queue[0]] + s.queue[1..];
  }

  lemma AddBalanced(s: State)
    requires Enabled(s, Thread) && FittingPlace(s) && s.place.Adding?
    ensures Balanced(s, Step(s, Thread), Seen([], Ended(s, Thread), []))
  {
    hide Messages, Adds, Notices, Events, Firsts;
    EndingIs(s);
    OneFate(Announced(s.place.event));
    assert [s.place.event] + [] == [s.place.event];
  }

  lemma ForwardBalanced(s: State)
    requires Enabled(s, Thread) && FittingPlace(s) && s.place.Forward?
    ensures Balanced(s, Step(s, Thread), Seen([], Ended(s, Thread), []))
  {
    hide Messages, Adds, Notices, Events, Firsts;
    EndingIs(s);
    OneFate(Forwarded(s.place.event));
    FirstsSnoc(s.forwarded, (s.place.event, s.place.id));
    assert [s.place.event] + [] == [s.place.event];
  }

  lemma FirstsSnoc(l: seq<(Event, nat)>, p: (Event, nat))
    ensures Firsts(l + [p]) == Firsts(l) + [p.0]
  {
  }

  lemma OtherBalanced(s: State)
    requires Enabled(s, Thread) && FittingPlace(s) && !s.place.Idle? && !s.place.Adding? && !s.place.Forward?
    ensures Balanced(s, Step(s, Thread), Seen([], Ended(s, Thread), []))
  {
    hide Messages, Adds, Notices, Events, Firsts;
    EndingIs(s);
    NoFate();
    OneFate(Dropped(s.place.event));
    assert [s.place.event] + [] == [s.place.event];
  }

  lemma NoFate()
    ensures Events([]) == [] && Messages([]) == [] && Adds([]) == [] && Notices([]) == []
  {
  }

  lemma StepBalanced(s: State, a: Action)
    requires Enabled(s, a) && FittingPlace(s)
    ensures Balanced(s, Step(s, a), Seen(Arrived(a), Ended(s, a), Took(s, a)))
  {
    hide Balanced, Ended, Took, FittingPlace;
    if a.Thread? {
      ThreadBalanced(s);
      NothingTaken(s);
    } else {
      OthersBalanced(s, a);
    }
  }

  lemma NothingTaken(s: State)
    requires Enabled(s, Thread)
    ensures Took(s, Thread) == []
  {
  }

  lemma OthersBalanced(s: State, a: Action)
    requires Enabled(s, a) && FittingPlace(s) && !a.Thread?
    ensures Balanced(s, Step(s, a), Seen(Arrived(a), Ended(s, a), Took(s, a)))
  {
    hide Messages, Adds, Notices, Events, Firsts;
    NoFate();
    if a.Host? || a.HostAnswersOther? {
      assert s.toHost == [s.toHost[0]] + s.toHost[1..];
    } else if a.Arrive? {
      Assoc(AtHand(s), s.queue, [a.event]);
    }
  }

  /** The last of two rows put together. */
  lemma LastOf(a: seq<Fate>, b: seq<Fate>)
    requires b != []
    ensures var l := a + b;
            l != [] && l[|l| - 1] == b[|b| - 1] && l[..|l| - 1] == a + b[..|b| - 1]
  {
  }

  lemma {:induction false} MessagesConcat(a: seq<Fate>, b: seq<Fate>)
    ensures Messages(a + b) == Messages(a) + Messages(b)
  {
    if b == [] {
      assert a + b == a && Messages(a) + [] == Messages(a);
    } else {
      MessagesConcat(a, b[..|b| - 1]);
      LastOf(a, b);
      OneFate(b[|b| - 1]);
      assert Messages(b) == Messages(b[..|b| - 1]) + Messages([b[|b| - 1]]);
      Assoc(Messages(a), Messages(b[..|b| - 1]), Messages([b[|b| - 1]]));
    }
  }

  lemma {:induction false} AddsConcat(a: seq<Fate>, b: seq<Fate>)
    ensures Adds(a + b) == Adds(a) + Adds(b)
  {
    if b == [] {
      assert a + b == a && Adds(a) + [] == Adds(a);
    } else {
      AddsConcat(a, b[..|b| - 1]);
      LastOf(a, b);
      OneFate(b[|b| - 1]);
      assert Adds(b) == Adds(b[..|b| - 1]) + Adds([b[|b| - 1]]);
      Assoc(Adds(a), Adds(b[..|b| - 1]), Adds([b[|b| - 1]]));
    }
  }

  lemma {:induction false} NoticesConcat(a: seq<Fate>, b: seq<Fate>)
    ensures Notices(a + b) == Notices(a) + Notices(b)
  {
    if b == [] {
      assert a + b == a && Notices(a) + [] == Notices(a);
    } else {
      NoticesConcat(a, b[..|b| - 1]);
      LastOf(a, b);
      OneFate(b[|b| - 1]);
      assert Notices(b) == Notices(b[..|b| - 1]) + Notices([b[|b| - 1]]);
      Assoc(Notices(a), Notices(b[..|b| - 1]), Notices([b[|b| - 1]]));
    }
  }

  lemma EventsConcat(a: seq<Fate>, b: seq<Fate>)
    ensures Events(a + b) == Events(a) + Events(b)
  {
  }

  /** What balances from one state to the next and from there on balances over both. */
  lemma Chain<T>(e: seq<T>, f: seq<T>, before: seq<T>, middle: seq<T>, after: seq<T>, a: seq<T>, b: seq<T>)
    requires e + middle == before + a && f + after == middle + b
    ensures (e + f) + after == before + (a + b)
  {
    calc {
      (e + f) + after;
      { Assoc(e, f, after); }
      e + (middle + b);
      { Assoc(e, middle, b); }
      (before + a) + b;
      { Assoc(before, a, b); }
      before + (a + b);
    }
  }

  lemma Compose(s: State, t: State, u: State, v: Seen, w: Seen)
    requires Balanced(s, t, v) && Balanced(t, u, w)
    ensures Balanced(s, u, Seen(v.arrived + w.arrived, v.fates + w.fates, v.took + w.took))
  {
    hide Messages, Adds, Notices, Events, Firsts, AtHand, FittingPlace;
    MessagesConcat(v.fates, w.fates);
    AddsConcat(v.fates, w.fates);
    NoticesConcat(v.fates, w.fates);
    EventsConcat(v.fates, w.fates);
    var before, middle, after := AtHand(s) + s.queue, AtHand(t) + t.queue, AtHand(u) + u.queue;
    Assoc(Events(v.fates), AtHand(t), t.queue);
    Assoc(Events(w.fates), AtHand(u), u.queue);
    Assoc(Events(v.fates) + Events(w.fates), AtHand(u), u.queue);
    Chain(Events(v.fates), Events(w.fates), before, middle, after, v.arrived, w.arrived);
    Chain(v.took, w.took, s.toHost, t.toHost, u.toHost, Messages(v.fates), Messages(w.fates));
    Assoc(s.adds, Adds(v.fates), Adds(w.fates));
    Assoc(Firsts(s.forwarded), Notices(v.fates), Notices(w.fates));
  }

  lemma {:induction false} RunBalanced(s: State, actions: seq<Action>)
    requires Runs(s, actions) && FittingPlace(s)
    ensures Balanced(s, Run(s, actions), Watch(s, actions))
    decreases actions
  {
    hide Balanced;
    if actions == [] {
      NothingHappened(s);
    } else {
      StepBalanced(s, actions[0]);
      FittingStep(s, actions[0]);
      RunBalanced(Step(s, actions[0]), actions[1..]);
      Compose(s, Step(s, actions[0]), Run(s, actions),
              Seen(Arrived(actions[0]), Ended(s, actions[0]), Took(s, actions[0])),
              Watch(Step(s, actions[0]), actions[1..]));
    }
  }

  lemma FittingStep(s: State, a: Action)
    requires Enabled(s, a) && FittingPlace(s)
    ensures FittingPlace(Step(s, a))
  {
  }

  lemma NothingHappened(s: State)
    requires FittingPlace(s)
    ensures Balanced(s, s, Seen([], [], []))
  {
    NoFate();
  }

  /** In every run, whatever the host answers and however the threads are scheduled: the events that have arrived are
    * those that came to an end, then the one at hand, then those still queued, in order and each once; what the host
    * has taken and has yet to take is the ReaderRemove of the start and then one message for each event announced or
    * forwarded; the readers announced and the events forwarded are those on record; and exactly the reader insertions
    * are announced. */
  lemma EveryEventIsAccountedFor(actions: seq<Action>)
    requires Runs(START, actions)
    ensures var t, w := Run(START, actions), Watch(START, actions);
            && Events(w.fates) + AtHand(t) + t.queue == w.arrived
            && w.took + t.toHost == [Leftover] + Messages(w.fates)
            && t.adds == Adds(w.fates) && Firsts(t.forwarded) == Notices(w.fates)
            && forall i :: 0 <= i < |w.fates| ==> (w.fates[i].Announced? <==> w.fates[i].event.kind.ReaderInsert?)
  {
    RunBalanced(START, actions);
    var t, w := Run(START, actions), Watch(START, actions);
    hide Run, Watch, Messages, Adds, Notices;
    assert [] + [] + w.arrived == w.arrived && [] + Adds(w.fates) == Adds(w.fates);
    assert Firsts([]) == [] && [] + Notices(w.fates) == Notices(w.fates);
  }

  // ---- Who is forwarded ----

  predicate NoThread(actions: seq<Action>) {
    forall i :: 0 <= i < |actions| ==> !actions[i].Thread?
  }

  /** While the thread does not move, its place stays; a thread that is not asleep stays awake. */
  lemma {:induction false} ThreadStays(s: State, actions: seq<Action>)
    requires Runs(s, actions) && NoThread(actions)
    ensures Run(s, actions).place == s.place && (!s.asleep ==> !Run(s, actions).asleep)
    ensures Run(s, actions).forwarded == s.forwarded && Run(s, actions).adds == s.adds
    decreases actions
  {
    if actions != [] {
      ThreadStays(Step(s, actions[0]), actions[1..]);
    }
  }

  /** An event whose reader has an id when it is taken is forwarded by the next step of the thread, with that id,
    * whatever the others do in between. */
  lemma KnownReaderIsForwarded(s: State, between: seq<Action>)
    requires Enabled(s, Thread) && s.place.Idle? && !s.queue[0].kind.ReaderInsert?
    requires IdOf(s, s.queue[0].reader) != 0xffff_ffff
    requires Runs(Step(s, Thread), between) && NoThread(between)
    ensures var u := Run(Step(s, Thread), between);
            && Enabled(u, Thread)
            && var v, e := Step(u, Thread), s.queue[0];
               && v.toHost == u.toHost + [Notice(e)] && v.place.Idle?
               && v.forwarded == s.forwarded + [(e, IdOf(s, e.reader))]
  {
    ThreadStays(Step(s, Thread), between);
  }

  /** A reader that is inserted while none is pending is announced by the second step of the thread from then on. */
  lemma InsertedReaderIsAnnounced(s: State, between: seq<Action>)
    requires Enabled(s, Thread) && s.place.WantSlot? && s.pending.None?
    requires Runs(Step(s, Thread), between) && NoThread(between)
    ensures Step(s, Thread).pending == Some(s.place.event.reader)
    ensures var u := Run(Step(s, Thread), between);
            && Enabled(u, Thread)
            && var v := Step(u, Thread);
               v.toHost == u.toHost + [ReaderAdd] && v.place.Idle? && v.adds == s.adds + [s.place.event.reader]
  {
    ThreadStays(Step(s, Thread), between);
  }

  /** The thread waits for what the host says to its event's reader: the answer number `n` to a ReaderAdd. */
  ghost predicate Awaits(s: State, e: Event, n: nat) {
    && Inv(s) && s.place == AwaitStatus(e) && s.pending == Some(e.reader)
    && |s.replies| == n && |s.adds| == n + 1 && IdOf(s, e.reader) == UNDEFINED
  }

  /** The host's answer number `n` gives the reader an id. */
  predicate Accepts(s: State, n: nat) {
    n < |s.replies| && s.replies[n].code == 0 && s.replies[n].id != 0xffff_ffff
  }

  /** Where the wait is over: the answer is there, and the reader has an id exactly when it was an acceptance. */
  ghost predicate Knows(s: State, e: Event, n: nat) {
    && Inv(s) && (s.place == AwaitStatus(e) || s.place == Recheck(e)) && s.pending.None?
    && |s.replies| == |s.adds| == n + 1
    && IdOf(s, e.reader) == (if Accepts(s, n) then s.replies[n].id else UNDEFINED)
  }

  /** The answer has come and says neither yes nor no: the wait goes on for ever. */
  ghost predicate Undecided(s: State, e: Event, n: nat) {
    Inv(s) && s.place == AwaitStatus(e) && s.pending == Some(e.reader) && |s.replies| == |s.adds| == n + 1
  }

  /** The wait begins when the event's reader is the one that is pending. */
  lemma WaitBegins(s: State)
    requires Inv(s) && Enabled(s, Thread) && s.place.CheckPending? && s.pending == Some(s.place.event.reader)
    requires |s.adds| == |s.replies| + 1
    ensures Awaits(Step(s, Thread), s.place.event, |s.replies|)
  {
    hide Assign, Granted;
    StepKeepsInv(s, Thread);
    assert s.replies[..|s.replies|] == s.replies;
  }

  lemma AwaitsStep(s: State, a: Action, e: Event, n: nat)
    requires Awaits(s, e, n) && Enabled(s, a) && Harmless(s, a)
    ensures var t := Step(s, a); Awaits(t, e, n) || Knows(t, e, n) || Undecided(t, e, n)
  {
    hide Assign, Granted;
    StepKeepsInv(s, a);
    if a.Receive? && s.toClient[0].toAdd {
      ReceiveAssigns(s);
      assert (s.replies + [s.toClient[0].reply])[n] == s.toClient[0].reply;
    }
  }

  lemma KnowsStep(s: State, a: Action, e: Event, n: nat)
    requires Knows(s, e, n) && Enabled(s, a) && Harmless(s, a) && !(a.Thread? && s.place.Recheck?)
    ensures Knows(Step(s, a), e, n)
  {
    hide Assign, Granted;
    StepKeepsInv(s, a);
    if a.Receive? && s.toClient[0].toAdd {
      ReceiveAssigns(s);
    }
  }

  lemma UndecidedStep(s: State, a: Action, e: Event, n: nat)
    requires Undecided(s, e, n) && Enabled(s, a) && Harmless(s, a)
    ensures Undecided(Step(s, a), e, n)
  {
    hide Assign, Granted;
    StepKeepsInv(s, a);
    if a.Receive? && s.toClient[0].toAdd {
      ReceiveAssigns(s);
    }
  }

  /** Once the answer is there, a thread that is awake goes on to the second test. */
  lemma AwakeGoesOn(s: State, e: Event, n: nat)
    requires Knows(s, e, n) && s.place == AwaitStatus(e)
    ensures Enabled(s, Thread) && Step(s, Thread) == s.(place := Recheck(e))
  {
    hide Assign, Granted;
  }

  /** The thread does not go on from `Recheck` within the run. */
  predicate StaysWith(s: State, actions: seq<Action>)
    requires Runs(s, actions)
    decreases actions
  {
    actions == []
    || (!(actions[0].Thread? && s.place.Recheck?) && StaysWith(Step(s, actions[0]), actions[1..]))
  }

  lemma {:induction false} WaitIsTold(s: State, actions: seq<Action>, e: Event, n: nat)
    requires Awaits(s, e, n) || Knows(s, e, n) || Undecided(s, e, n)
    requires Runs(s, actions) && NoStraySettles(s, actions) && StaysWith(s, actions)
    ensures var t := Run(s, actions); Awaits(t, e, n) || Knows(t, e, n) || Undecided(t, e, n)
    decreases actions
  {
    hide Awaits, Knows, Undecided;
    if actions != [] {
      if Awaits(s, e, n) {
        AwaitsStep(s, actions[0], e, n);
      } else if Knows(s, e, n) {
        KnowsStep(s, actions[0], e, n);
      } else {
        UndecidedStep(s, actions[0], e, n);
      }
      WaitIsTold(Step(s, actions[0]), actions[1..], e, n);
    }
  }

  /** An event that waits for its reader's status is forwarded if and only if the host accepts the reader: when the
    * thread gets to test the id again, its next two steps send the message about the event, with the id from the host's
    * answer, if that answer is an acceptance; otherwise the next step drops it. */
  lemma WaitingEventIsForwardedIffAccepted(s: State, actions: seq<Action>, e: Event)
    requires Awaits(s, e, |s.replies|) && Runs(s, actions) && NoStraySettles(s, actions) && StaysWith(s, actions)
    requires Run(s, actions).place == Recheck(e)
    ensures var t, n := Run(s, actions), |s.replies|;
            && Enabled(t, Thread) && n < |t.replies|
            && (if t.replies[n].code == 0 && t.replies[n].id != 0xffff_ffff then
                  Step(t, Thread).place == Forward(e, t.replies[n].id) && Ended(t, Thread) == []
                else Step(t, Thread).place.Idle? && Ended(t, Thread) == [Dropped(e)])
  {
    WaitIsTold(s, actions, e, |s.replies|);
    EndingIs(Run(s, actions));
  }
}
