/** Registering readers with the host (src/vscclient.c): the event thread adds readers and forwards what happens
  * to them, the socket thread takes the host's answers, and `pending_reader` with its lock and condition stands
  * between them. Each step of the machine is one critical section of one thread, a message handled by the host,
  * or an event; the two socket directions are queues. */
module Handshake {
  import opened Bytes
  import opened Framing

  const UNDEFINED := 0xffff_ffff
  const VSC_SUCCESS := 0
  const VSC_CANNOT_ADD_MORE_READERS := 2

  datatype EventKind = ReaderInsert | ReaderRemove | CardInsert | CardRemove
  datatype Event = Event(reader: nat, kind: EventKind)

  /** ReaderAdd carries nothing that says which reader it is for, and the answer only a code and an id. */
  datatype Message = ReaderAdd | Leftover | Notice(event: Event)
  datatype Reply = Reply(code: nat, id: nat)

  /** An answer on its way, with what only the host knows: whether it answers a ReaderAdd. */
  datatype Answer = Answer(reply: Reply, toAdd: bool)

  /** Where the event thread is. `seen` counts the answers to ReaderAdds received when the id was
    * read. */
  datatype Place =
    | Idle
    | CheckPending(event: Event, seen: nat)
    | AwaitStatus(event: Event)
    | Recheck(event: Event)
    | WantSlot(event: Event)
    | Adding(event: Event)
    | Forward(event: Event, id: nat)

  /** The last three fields are history: the readers ReaderAdd was sent for, the answers to
    * them that were received, and the events forwarded with the id their reader had. */
  datatype State = State(ids: map<nat, nat>, pending: Option<nat>, place: Place, asleep: bool, queue: seq<Event>,
                         toHost: seq<Message>, toClient: seq<Answer>,
                         adds: seq<nat>, replies: seq<Reply>, forwarded: seq<(Event, nat)>)

  /** on_host_init has asked for whatever reader an earlier client left behind to be removed. */
  const START := State(map[], None, Idle, false, [], [Leftover], [], [], [], [])

  datatype Action =
    | Arrive(event: Event)
    | Thread // the event thread goes on to its next step
    | Wake // a wakeup without a signal
    | Host(reply: Reply) // the host takes a message and answers it if it is a ReaderAdd
    | HostAnswersOther(reply: Reply) // the host answers a message that is not a ReaderAdd
    | Receive // the socket thread takes an answer

  function IdIn(ids: map<nat, nat>, reader: nat): nat {
    if reader in ids then ids[reader] else UNDEFINED
  }

  function IdOf(s: State, reader: nat): nat {
    IdIn(s.ids, reader)
  }

  predicate Enabled(s: State, a: Action) {
    match a
    case Arrive(_) => true
    case Thread => !s.asleep && (s.place.Idle? ==> s.queue != [])
    case Wake => s.asleep
    case Host(_) => s.toHost != []
    case HostAnswersOther(_) => s.toHost != [] && !s.toHost[0].ReaderAdd?
    case Receive => s.toClient != []
  }

  function Step(s: State, a: Action): State
    requires Enabled(s, a)
  {
    match a
    case Arrive(e) => s.(queue := s.queue + [e])
    case Thread => ThreadStep(s)
    case Wake => s.(asleep := false)
    case Host(r) =>
      if s.toHost[0].ReaderAdd? then s.(toHost := s.toHost[1..], toClient := s.toClient + [Answer(r, true)])
      else s.(toHost := s.toHost[1..])
    case HostAnswersOther(r) => s.(toHost := s.toHost[1..], toClient := s.toClient + [Answer(r, false)])
    case Receive =>
      var a := s.toClient[0];
      OnError(s.(toClient := s.toClient[1..], replies := if a.toAdd then s.replies + [a.reply] else s.replies), a.reply)
  }

  /** event_thread, one critical section at a time */
  function ThreadStep(s: State): State
    requires s.place.Idle? ==> s.queue != []
  {
    match s.place
    case Idle =>
      var e := s.queue[0];
      var t := s.(queue := s.queue[1..]);
      if e.kind.ReaderInsert? then t.(place := WantSlot(e))
      else if IdOf(s, e.reader) == UNDEFINED then t.(place := CheckPending(e, |s.replies|))
      else t.(place := Forward(e, IdOf(s, e.reader)))
    case CheckPending(e, _) =>
      if s.pending != Some(e.reader) then s.(place := Idle) // dropped
      else s.(place := AwaitStatus(e), asleep := true)
    case AwaitStatus(e) =>
      if s.pending.Some? then s.(asleep := true) else s.(place := Recheck(e))
    case Recheck(e) =>
      if IdOf(s, e.reader) == UNDEFINED then s.(place := Idle) // dropped
      else s.(place := Forward(e, IdOf(s, e.reader)))
    case WantSlot(e) =>
      if s.pending.Some? then s.(asleep := true) else s.(pending := Some(e.reader), place := Adding(e))
    case Adding(e) =>
      s.(toHost := s.toHost + [ReaderAdd], adds := s.adds + [e.reader], place := Idle)
    case Forward(e, id) =>
      s.(toHost := s.toHost + [Notice(e)], forwarded := s.forwarded + [(e, id)], place := Idle)
  }

  /** The VSC_Error branch of do_socket_read */
  function OnError(s: State, r: Reply): State {
    if s.pending.None? then s
    else if r.code == VSC_SUCCESS then
      s.(ids := s.ids[s.pending.value := r.id], pending := None, asleep := false)
    else if r.code == VSC_CANNOT_ADD_MORE_READERS then s.(pending := None, asleep := false)
    else s
  }

  predicate Runs(s: State, actions: seq<Action>)
    decreases actions
  {
    actions == [] || (Enabled(s, actions[0]) && Runs(Step(s, actions[0]), actions[1..]))
  }

  function Run(s: State, actions: seq<Action>): State
    requires Runs(s, actions)
    decreases actions
  {
    if actions == [] then s else Run(Step(s, actions[0]), actions[1..])
  }

  /** VSC_Error comes only as the answer to a ReaderAdd. */
  predicate AnswersAddsOnly(actions: seq<Action>) {
    forall i :: 0 <= i < |actions| ==> !actions[i].HostAnswersOther?
  }

  predicate Decides(r: Reply) {
    r.code == VSC_SUCCESS || r.code == VSC_CANNOT_ADD_MORE_READERS
  }

  // ---- What should happen ----

  function AddsIn(l: seq<Message>): nat {
    if l == [] then 0 else (if l[0].ReaderAdd? then 1 else 0) + AddsIn(l[1..])
  }

  function AnswersIn(l: seq<Answer>): nat {
    if l == [] then 0 else (if l[0].toAdd then 1 else 0) + AnswersIn(l[1..])
  }

  /** The ids when the k-th answer belongs to the k-th ReaderAdd. */
  function Assign(adds: seq<nat>, replies: seq<Reply>): map<nat, nat>
    requires |adds| == |replies|
  {
    if adds == [] then map[]
    else
      var n := |adds| - 1;
      var before := Assign(adds[..n], replies[..n]);
      if replies[n].code == VSC_SUCCESS then before[adds[n] := replies[n].id] else before
  }

  /** The host has given this id in answer to a ReaderAdd for this reader. */
  ghost predicate Granted(adds: seq<nat>, replies: seq<Reply>, reader: nat, id: nat) {
    exists k :: 0 <= k < |replies| && k < |adds| && adds[k] == reader
                && replies[k].code == VSC_SUCCESS && replies[k].id == id
  }

  ghost predicate Inv(s: State) {
    && |s.adds| == |s.replies| + AnswersIn(s.toClient) + AddsIn(s.toHost)
    && s.ids == Assign(s.adds[..|s.replies|], s.replies)
    && PendingInv(s) && PlaceInv(s)
    && forall i :: 0 <= i < |s.forwarded| ==>
         s.forwarded[i].1 != UNDEFINED && Granted(s.adds, s.replies, s.forwarded[i].0.reader, s.forwarded[i].1)
  }

  /** At most one ReaderAdd is unanswered, and it is the pending reader's. */
  ghost predicate PendingInv(s: State) {
    match s.pending
    case None => |s.adds| == |s.replies|
    case Some(r) =>
      if s.place.Adding? then |s.adds| == |s.replies| && r == s.place.event.reader
      else |s.adds| > 0 && s.adds[|s.adds| - 1] == r && |s.replies| <= |s.adds| <= |s.replies| + 1
  }

  ghost predicate PlaceInv(s: State) {
    && (s.asleep ==> s.pending.Some? && (s.place.AwaitStatus? || s.place.WantSlot?))
    && match s.place
       case CheckPending(e, seen) =>
         seen <= |s.replies| <= |s.adds| <= seen + 1
         && IdIn(Assign(s.adds[..seen], s.replies[..seen]), e.reader) == UNDEFINED
       case AwaitStatus(e) => s.pending.Some? ==> s.pending == Some(e.reader)
       case Adding(_) => s.pending.Some?
       case Forward(e, id) => id != UNDEFINED && Granted(s.adds, s.replies, e.reader, id)
       case _ => true
  }

  // ---- Every step keeps it ----

  lemma {:induction false} AddsInSnoc(l: seq<Message>, m: Message)
    ensures AddsIn(l + [m]) == AddsIn(l) + if m.ReaderAdd? then 1 else 0
  {
    if l == [] {
      assert [m][1..] == [];
      assert AddsIn([m]) == (if m.ReaderAdd? then 1 else 0) + AddsIn([]);
    } else {
      assert (l + [m])[1..] == l[1..] + [m];
      AddsInSnoc(l[1..], m);
    }
  }

  lemma {:induction false} AnswersInSnoc(l: seq<Answer>, a: Answer)
    ensures AnswersIn(l + [a]) == AnswersIn(l) + if a.toAdd then 1 else 0
  {
    if l == [] {
      assert [a][1..] == [];
      assert AnswersIn([a]) == (if a.toAdd then 1 else 0) + AnswersIn([]);
    } else {
      assert (l + [a])[1..] == l[1..] + [a];
      AnswersInSnoc(l[1..], a);
    }
  }

  lemma {:induction false} AssignedIsGranted(adds: seq<nat>, replies: seq<Reply>, reader: nat)
    requires |replies| <= |adds|
    requires IdIn(Assign(adds[..|replies|], replies), reader) != UNDEFINED
    ensures Granted(adds, replies, reader, IdIn(Assign(adds[..|replies|], replies), reader))
  {
    var n := |replies| - 1;
    if replies[n].code == VSC_SUCCESS && adds[n] == reader {
      assert replies[n].id == IdIn(Assign(adds[..|replies|], replies), reader);
    } else {
      assert adds[..n + 1][..n] == adds[..|replies[..n]|];
      AssignedIsGranted(adds, replies[..n], reader);
      var id := IdIn(Assign(adds[..n], replies[..n]), reader);
      var k :| 0 <= k < n && k < |adds| && adds[k] == reader
               && replies[..n][k].code == VSC_SUCCESS && replies[..n][k].id == id;
      assert replies[k].code == VSC_SUCCESS;
    }
  }

  lemma GrantedStays(adds: seq<nat>, replies: seq<Reply>, more: seq<nat>, later: seq<Reply>, reader: nat, id: nat)
    requires Granted(adds, replies, reader, id) && |replies| <= |adds|
    ensures Granted(adds + more, replies + later, reader, id)
  {
    var k :| 0 <= k < |replies| && k < |adds| && adds[k] == reader
             && replies[k].code == VSC_SUCCESS && replies[k].id == id;
    assert (replies + later)[k] == replies[k] && (adds + more)[k] == reader;
  }

  lemma ThreadKeepsInv(s: State)
    requires Inv(s) && Enabled(s, Thread)
    ensures Inv(ThreadStep(s))
  {
    hide Granted, Assign, AnswersIn;
    match s.place {
      case Idle => TakeKeepsInv(s);
      case CheckPending(e, _) =>
      case AwaitStatus(e) =>
      case Recheck(e) =>
        if IdOf(s, e.reader) != UNDEFINED {
          AssignedIsGranted(s.adds, s.replies, e.reader);
        }
      case WantSlot(e) =>
      case Adding(e) => AddKeepsInv(s);
      case Forward(e, id) => AddsInSnoc(s.toHost, Notice(e));
    }
  }

  lemma TakeKeepsInv(s: State)
    requires Inv(s) && s.place.Idle? && s.queue != [] && !s.asleep
    ensures Inv(ThreadStep(s))
  {
    var e := s.queue[0];
    if !e.kind.ReaderInsert? {
      if IdOf(s, e.reader) != UNDEFINED {
        AssignedIsGranted(s.adds, s.replies, e.reader);
      } else {
        assert s.replies[..|s.replies|] == s.replies;
      }
    }
  }

  lemma AddKeepsInv(s: State)
    requires Inv(s) && s.place.Adding?
    ensures Inv(ThreadStep(s))
  {
    var t := ThreadStep(s);
    AddsInSnoc(s.toHost, ReaderAdd);
    assert t.adds[..|t.replies|] == s.adds[..|s.replies|];
    forall i | 0 <= i < |t.forwarded|
      ensures Granted(t.adds, t.replies, t.forwarded[i].0.reader, t.forwarded[i].1)
    {
      GrantedStays(s.adds, s.replies, [s.place.event.reader], [], s.forwarded[i].0.reader, s.forwarded[i].1);
      assert s.replies + [] == s.replies;
    }
  }

  lemma ReceiveKeepsGrants(s: State)
    requires Inv(s) && s.toClient != [] && s.toClient[0].toAdd
    ensures var t := Step(s, Receive);
            && (forall i :: 0 <= i < |t.forwarded| ==>
                  t.forwarded[i].1 != UNDEFINED
                  && Granted(t.adds, t.replies, t.forwarded[i].0.reader, t.forwarded[i].1))
            && (t.place.Forward? ==> Granted(t.adds, t.replies, t.place.event.reader, t.place.id))
  {
    var t := Step(s, Receive);
    assert s.adds + [] == s.adds;
    forall i | 0 <= i < |t.forwarded|
      ensures Granted(t.adds, t.replies, t.forwarded[i].0.reader, t.forwarded[i].1)
    {
      GrantedStays(s.adds, s.replies, [], [s.toClient[0].reply], s.forwarded[i].0.reader, s.forwarded[i].1);
    }
    if s.place.Forward? {
      GrantedStays(s.adds, s.replies, [], [s.toClient[0].reply], s.place.event.reader, s.place.id);
    }
  }

  /** The answer to a ReaderAdd is for the pending reader. */
  lemma ReceiveAssigns(s: State)
    requires Inv(s) && s.toClient != [] && s.toClient[0].toAdd
    ensures |s.replies| < |s.adds| && s.pending == Some(s.adds[|s.replies|])
    ensures var t := Step(s, Receive); t.ids == Assign(t.adds[..|t.replies|], t.replies)
  {
    var t := Step(s, Receive);
    var n := |s.replies|;
    assert t.adds[..n + 1][..n] == s.adds[..n] && t.replies[..n] == s.replies;
  }

  lemma ReceiveKeepsInv(s: State)
    requires Inv(s) && s.toClient != [] && s.toClient[0].toAdd
    ensures Inv(Step(s, Receive))
  {
    hide Assign, Granted;
    ReceiveKeepsGrants(s);
    ReceiveAssigns(s);
    var t := Step(s, Receive);
    if s.place.CheckPending? {
      assert t.replies[..s.place.seen] == s.replies[..s.place.seen];
    }
  }

  /** The answer that is received settles the pending reader. */
  predicate Settles(s: State, a: Action)
    requires Enabled(s, a)
  {
    a.Receive? && s.pending.Some? && Decides(s.toClient[0].reply)
  }

  /** Not an answer to some other message that settles a reader. */
  predicate Harmless(s: State, a: Action)
    requires Enabled(s, a)
  {
    Settles(s, a) ==> s.toClient[0].toAdd
  }

  lemma StrayIsIgnored(s: State)
    requires s.toClient != [] && !s.toClient[0].toAdd && (s.pending.None? || !Decides(s.toClient[0].reply))
    ensures Step(s, Receive) == s.(toClient := s.toClient[1..])
  {
  }

  lemma HostKeepsInv(s: State, a: Action)
    requires Inv(s) && Enabled(s, a) && (a.Host? || a.HostAnswersOther?)
    ensures Inv(Step(s, a))
  {
    AnswersInSnoc(s.toClient, Answer(a.reply, a.Host?));
  }

  lemma StepKeepsInv(s: State, a: Action)
    requires Inv(s) && Enabled(s, a) && Harmless(s, a)
    ensures Inv(Step(s, a))
  {
    match a {
      case Arrive(_) =>
      case Thread => ThreadKeepsInv(s);
      case Wake =>
      case Host(_) => HostKeepsInv(s, a);
      case HostAnswersOther(_) => HostKeepsInv(s, a);
      case Receive =>
        if s.toClient[0].toAdd {
          ReceiveKeepsInv(s);
        } else {
          StrayIsIgnored(s);
        }
    }
  }

  /** No answer to a message that is not a ReaderAdd settles a reader: none with a deciding code is received while a
    * reader is pending. */
  predicate NoStraySettles(s: State, actions: seq<Action>)
    requires Runs(s, actions)
    decreases actions
  {
    actions == [] || (Harmless(s, actions[0]) && NoStraySettles(Step(s, actions[0]), actions[1..]))
  }

  lemma {:induction false} RunKeepsInv(s: State, actions: seq<Action>)
    requires Inv(s) && Runs(s, actions) && NoStraySettles(s, actions)
    ensures Inv(Run(s, actions))
    decreases actions
  {
    if actions != [] {
      StepKeepsInv(s, actions[0]);
      RunKeepsInv(Step(s, actions[0]), actions[1..]);
    }
  }

  /** A host that answers nothing but ReaderAdds never does that. */
  lemma {:induction false} PoliteHostNeverStrays(s: State, actions: seq<Action>)
    requires Runs(s, actions) && AnswersAddsOnly(actions) && forall i :: 0 <= i < |s.toClient| ==> s.toClient[i].toAdd
    ensures NoStraySettles(s, actions)
    decreases actions
  {
    if actions != [] {
      PoliteHostNeverStrays(Step(s, actions[0]), actions[1..]);
    }
  }

  // ---- Safety ----

  /** In every interleaving in which no answer to another message settles a reader: at most one ReaderAdd is
    * unanswered, the ids are those the host gave in answer to each reader's own ReaderAdd, and no event was
    * forwarded for a reader to which the host had not given an id. */
  lemma Registration(actions: seq<Action>)
    requires Runs(START, actions) && NoStraySettles(START, actions)
    ensures var s := Run(START, actions);
            && |s.replies| <= |s.adds|
            && AddsIn(s.toHost) + AnswersIn(s.toClient) <= 1
            && s.ids == Assign(s.adds[..|s.replies|], s.replies)
            && forall i :: 0 <= i < |s.forwarded| ==>
                 s.forwarded[i].1 != UNDEFINED && Granted(s.adds, s.replies, s.forwarded[i].0.reader, s.forwarded[i].1)
  {
    StartInv();
    RunKeepsInv(START, actions);
  }

  lemma StartInv()
    ensures Inv(START)
  {
    assert AddsIn([Leftover]) == AddsIn([Leftover][1..]);
  }

  /** The answer at hand is to the pending reader's own ReaderAdd. */
  predicate OwnAnswer(s: State) {
    s.toClient != [] && s.toClient[0].toAdd && |s.replies| < |s.adds| && s.pending == Some(s.adds[|s.replies|])
  }

  predicate OwnAnswersSettle(s: State, actions: seq<Action>)
    requires Runs(s, actions)
    decreases actions
  {
    actions == []
    || ((Settles(s, actions[0]) ==> OwnAnswer(s)) && OwnAnswersSettle(Step(s, actions[0]), actions[1..]))
  }

  /** In every run, every answer that settles a reader answers that reader's own ReaderAdd if and only if no answer to
    * another message is received with a deciding code while a reader is pending. */
  lemma AnswersMeetTheirReader(actions: seq<Action>)
    requires Runs(START, actions)
    ensures OwnAnswersSettle(START, actions) <==> NoStraySettles(START, actions)
  {
    StartInv();
    SettledByOwnAnswer(START, actions);
  }

  lemma {:induction false} SettledByOwnAnswer(s: State, actions: seq<Action>)
    requires Inv(s) && Runs(s, actions)
    ensures OwnAnswersSettle(s, actions) <==> NoStraySettles(s, actions)
    decreases actions
  {
    if actions != [] {
      var a := actions[0];
      if Settles(s, a) && s.toClient[0].toAdd {
        ReceiveAssigns(s);
      }
      if Harmless(s, a) {
        StepKeepsInv(s, a);
        SettledByOwnAnswer(Step(s, a), actions[1..]);
      }
    }
  }

  // ---- Dropped events ----

  /** The code drops an event whose reader has no id and is not pending. It is mistaken exactly when the host's
    * acceptance of this very reader came between reading the id and taking the lock. */
  lemma DropIsMistaken(actions: seq<Action>)
    requires Runs(START, actions) && NoStraySettles(START, actions)
    requires var s := Run(START, actions);
             s.place.CheckPending? && s.pending != Some(s.place.event.reader)
    ensures var s := Run(START, actions);
            var reader, seen := s.place.event.reader, s.place.seen;
            && Enabled(s, Thread) && Step(s, Thread) == s.(place := Idle)
            && (IdOf(s, reader) != UNDEFINED <==>
                 && seen < |s.replies| && seen < |s.adds| && s.adds[seen] == reader
                 && s.replies[seen].code == VSC_SUCCESS && s.replies[seen].id != UNDEFINED)
  {
    StartInv();
    RunKeepsInv(START, actions);
    var s := Run(START, actions);
    var seen := s.place.seen;
    if |s.replies| > seen {
      assert |s.replies| == seen + 1;
      assert s.adds[..seen + 1][..seen] == s.adds[..seen];
    } else {
      assert s.replies[..seen] == s.replies;
    }
  }

  /** Reader 5 has been announced to the host, its card is next in the queue. */
  const ANNOUNCED := START.(queue := [Event(5, CardInsert)], toHost := [ReaderAdd], adds := [5], pending := Some(5))

  /** The host accepts the reader, but only after the event thread has looked at the status of the card's reader. */
  lemma LoseCard() returns (actions: seq<Action>)
    ensures Runs(ANNOUNCED, actions) && AnswersAddsOnly(actions)
    ensures var s := Run(ANNOUNCED, actions);
            IdOf(s, 5) == 7 && s.place == Idle && s.queue == [] && s.forwarded == []
  {
    hide Runs, Run;
    var s6 := ANNOUNCED.(toHost := [], toClient := [Answer(Reply(0, 7), true)]);
    var s7 := s6.(queue := [], place := CheckPending(Event(5, CardInsert), 0));
    var s8 := s7.(toClient := [], replies := [Reply(0, 7)], ids := map[5 := 7], pending := None);
    var s9 := s8.(place := Idle);
    Done(s9);
    var l9 := Goes(s8, Thread, s9, []);
    var l8 := Goes(s7, Receive, s8, l9);
    var l7 := Goes(s6, Thread, s7, l8);
    actions := Goes(ANNOUNCED, Host(Reply(0, 7)), s6, l7);
  }

  /** It does happen: a card is inserted while its reader is being added, the host accepts the reader, and the
    * card is never reported. */
  lemma AcceptedReaderLosesItsCard() returns (actions: seq<Action>)
    ensures Runs(START, actions) && AnswersAddsOnly(actions) && Arrive(Event(5, CardInsert)) in actions
    ensures var s := Run(START, actions);
            IdOf(s, 5) == 7 && s.place == Idle && s.queue == [] && s.forwarded == []
  {
    hide Runs, Run;
    var insert, card := Event(5, ReaderInsert), Event(5, CardInsert);
    var s0 := START.(queue := [insert]);
    var s1 := s0.(queue := [insert, card]);
    var s2 := s1.(queue := [card], place := WantSlot(insert));
    var s3 := s2.(pending := Some(5), place := Adding(insert));
    var s4 := s3.(toHost := [Leftover, ReaderAdd], adds := [5], place := Idle);
    var more := LoseCard();
    var l5 := Goes(s4, Host(Reply(0, 0)), ANNOUNCED, more);
    var l4 := Goes(s3, Thread, s4, l5);
    var l3 := Goes(s2, Thread, s3, l4);
    var l2 := Goes(s1, Thread, s2, l3);
    var l1 := Goes(s0, Arrive(card), s1, l2);
    actions := Goes(START, Arrive(insert), s0, l1);
  }

  /** One step of a run, spelled out. */
  lemma Goes(s: State, a: Action, t: State, rest: seq<Action>) returns (l: seq<Action>)
    requires Enabled(s, a) && Step(s, a) == t && Runs(t, rest)
    ensures l == [a] + rest && Runs(s, l) && Run(s, l) == Run(t, rest)
  {
    l := [a] + rest;
    assert l[1..] == rest;
  }

  lemma Done(s: State)
    ensures Runs(s, []) && Run(s, []) == s
  {
  }

  // ---- Waiting ----

  /** The event thread cannot go on before the pending reader is settled, and an answer is on its way. */
  predicate Waiting(s: State) {
    (s.place.AwaitStatus? || s.place.WantSlot?) && s.pending.Some? && |s.adds| == |s.replies| + 1
  }

  function Until(l: seq<Message>): nat {
    if l == [] then 0 else if l[0].ReaderAdd? then 1 else 1 + Until(l[1..])
  }

  /** How many messages the host and the socket thread have to handle before the wait is over. */
  function Distance(s: State): nat {
    if s.toClient != [] then 1 else 1 + Until(s.toHost)
  }

  /** The step the wait is waiting for: the socket thread's if an answer has come, otherwise the host's. */
  predicate Due(s: State, a: Action) {
    if s.toClient != [] then a.Receive? else a.Host?
  }

  /** Whoever waits is waiting for an answer that is on its way: no wakeup is lost. Every step that is due brings
    * the end of the wait nearer, nothing else moves it away, and something is always due. */
  lemma WaitProgress(s: State, a: Action)
    requires Inv(s) && Waiting(s) && Enabled(s, a) && !a.HostAnswersOther? && AllDecide(s.toClient)
    ensures s.toClient != [] || s.toHost != []
    ensures var t := Step(s, a);
            if Due(s, a) then
              (Waiting(t) && Distance(t) < Distance(s)) || (a.Receive? && t.pending.None? && !t.asleep)
            else Waiting(t) && Distance(t) <= Distance(s)
  {
    if s.toClient == [] {
      AddsReachable(s.toHost);
    } else {
      ReceiveAssigns(s);
      AllAnswerAdds(s.toClient);
    }
    if a.Thread? {
      assert Step(s, a) == s.(asleep := true);
    }
  }

  predicate AllDecide(l: seq<Answer>) {
    forall i :: 0 <= i < |l| ==> l[i].toAdd && Decides(l[i].reply)
  }

  lemma {:induction false} AllAnswerAdds(l: seq<Answer>)
    requires AllDecide(l)
    ensures AnswersIn(l) == |l|
  {
    if l != [] {
      AllAnswerAdds(l[1..]);
    }
  }

  lemma AddsReachable(l: seq<Message>)
    requires AddsIn(l) > 0
    ensures l != []
  {
  }

  predicate HostDecides(actions: seq<Action>) {
    forall i :: 0 <= i < |actions| ==> !actions[i].HostAnswersOther? && (actions[i].Host? ==> Decides(actions[i].reply))
  }

  /** How many of the steps were due when they were taken. */
  function DueSteps(s: State, actions: seq<Action>): nat
    requires Runs(s, actions)
    decreases actions
  {
    if actions == [] then 0
    else (if Due(s, actions[0]) then 1 else 0) + DueSteps(Step(s, actions[0]), actions[1..])
  }

  /** No wait is permanent: whatever else happens in between, as many due steps as the distance says end it. */
  lemma {:induction false} WaitEnds(s: State, actions: seq<Action>)
    requires Inv(s) && Waiting(s) && Runs(s, actions) && HostDecides(actions) && DueSteps(s, actions) >= Distance(s)
    requires AllDecide(s.toClient)
    ensures exists k :: 0 < k <= |actions| && Runs(s, actions[..k])
                        && Run(s, actions[..k]).pending.None? && !Run(s, actions[..k]).asleep
    decreases actions
  {
    var a, rest := actions[0], actions[1..];
    var t := Step(s, a);
    WaitProgress(s, a);
    StepKeepsInv(s, a);
    assert actions[..1][1..] == [] && actions[..1][0] == a;
    if Waiting(t) {
      WaitEnds(t, rest);
      var k :| 0 < k <= |rest| && Runs(t, rest[..k]) && Run(t, rest[..k]).pending.None? && !Run(t, rest[..k]).asleep;
      assert actions[..k + 1][0] == a && actions[..k + 1][1..] == rest[..k];
      assert Runs(s, actions[..k + 1]);
    } else {
      assert Runs(t, actions[..1][1..]);
      assert Runs(s, actions[..1]) && Run(s, actions[..1]) == t;
    }
  }

  /** With a host that decides every ReaderAdd the pending reader always has an answer on its way. */
  ghost predicate Decided(s: State) {
    && AllDecide(s.toClient)
    && (s.pending.Some? && !s.place.Adding? ==> |s.adds| == |s.replies| + 1)
  }

  lemma StepKeepsDecided(s: State, a: Action)
    requires Inv(s) && Decided(s) && Enabled(s, a) && HostDecides([a])
    ensures Decided(Step(s, a))
  {
    assert [a][0] == a;
  }

  lemma {:induction false} RunIsDecided(s: State, actions: seq<Action>)
    requires Inv(s) && Decided(s) && Runs(s, actions) && HostDecides(actions)
    ensures Inv(Run(s, actions)) && Decided(Run(s, actions))
    decreases actions
  {
    hide Inv;
    if actions != [] {
      StepKeepsInv(s, actions[0]);
      StepKeepsDecided(s, actions[0]);
      RunIsDecided(Step(s, actions[0]), actions[1..]);
    }
  }

  /** In every run with such a host, whenever the event thread sleeps it can be woken, and it is as soon as the
    * due steps have been taken, whatever else happens in between. */
  lemma NoPermanentWait(actions: seq<Action>, more: seq<Action>)
    requires Runs(START, actions) && HostDecides(actions)
    requires var s := Run(START, actions);
             s.asleep && Runs(s, more) && HostDecides(more) && DueSteps(s, more) >= Distance(s)
    ensures var s := Run(START, actions);
            exists k :: 0 < k <= |more| && Runs(s, more[..k])
                        && Run(s, more[..k]).pending.None? && !Run(s, more[..k]).asleep
  {
    StartInv();
    RunIsDecided(START, actions);
    WaitEnds(Run(START, actions), more);
  }

  /** An answer ends the wait exactly when it is success or "cannot add more". */
  lemma AnswerEndsTheWait(s: State)
    requires Inv(s) && Waiting(s) && s.toClient != []
    ensures Step(s, Receive).pending.None? <==> Decides(s.toClient[0].reply)
    ensures !Decides(s.toClient[0].reply) && s.toClient[0].toAdd ==> Stuck(Step(s, Receive))
  {
    if s.toClient[0].toAdd {
      ReceiveKeepsInv(s);
    }
  }

  /** The pending reader has had its answer and stays pending. */
  predicate Stuck(s: State) {
    s.pending.Some? && !s.place.Adding? && |s.adds| == |s.replies|
  }

  /** After any other code no reader is ever added again. */
  lemma {:induction false} StuckForever(s: State, actions: seq<Action>)
    requires Inv(s) && Stuck(s) && Runs(s, actions) && NoStraySettles(s, actions)
    ensures Run(s, actions).pending == s.pending && Run(s, actions).adds == s.adds
    decreases actions
  {
    if actions != [] {
      StepKeepsInv(s, actions[0]);
      StuckStep(s, actions[0]);
      StuckForever(Step(s, actions[0]), actions[1..]);
    }
  }

  lemma StuckStep(s: State, a: Action)
    requires Inv(s) && Stuck(s) && Enabled(s, a) && Harmless(s, a)
    ensures Stuck(Step(s, a)) && Step(s, a).pending == s.pending && Step(s, a).adds == s.adds
  {
    if a.Receive? && s.toClient[0].toAdd {
      ReceiveAssigns(s);
    }
  }

  /** The first code that is neither leaves the client stuck, from the very first reader on. */
  lemma RefusalSticks(code: nat) returns (actions: seq<Action>)
    requires !Decides(Reply(code, 0))
    ensures Runs(START, actions) && AnswersAddsOnly(actions) && Stuck(Run(START, actions))
  {
    hide Runs, Run;
    var insert := Event(1, ReaderInsert);
    var s0 := START.(queue := [insert]);
    var s1 := s0.(queue := [], place := WantSlot(insert));
    var s2 := s1.(pending := Some(1), place := Adding(insert));
    var s3 := s2.(toHost := [Leftover, ReaderAdd], adds := [1], place := Idle);
    var s4 := s3.(toHost := [ReaderAdd]);
    var s5 := s4.(toHost := [], toClient := [Answer(Reply(code, 0), true)]);
    var s6 := s5.(toClient := [], replies := [Reply(code, 0)]);
    Done(s6);
    var l6 := Goes(s5, Receive, s6, []);
    var l5 := Goes(s4, Host(Reply(code, 0)), s5, l6);
    var l4 := Goes(s3, Host(Reply(0, 0)), s4, l5);
    var l3 := Goes(s2, Thread, s3, l4);
    var l2 := Goes(s1, Thread, s2, l3);
    var l1 := Goes(s0, Thread, s1, l2);
    actions := Goes(START, Arrive(insert), s0, l1);
  }

  /** The code as the client reads it: the four bytes at the start of its payload buffer, in its own byte order. */
  function ErrorCode(front: seq<byte>, bigEndian: bool): nat
    requires |front| == 4
  {
    if bigEndian then FromBe32(front) else FromBe32([front[3], front[2], front[1], front[0]])
  }

  /** Which bytes decide. A host that sends its code most significant byte first, as it must send the header, makes a
    * little-endian client miss "cannot add more": that answer leaves it stuck. */
  lemma BytesThatDecide(front: seq<byte>, bigEndian: bool, id: nat)
    requires |front| == 4
    ensures Decides(Reply(ErrorCode(front, bigEndian), id)) <==>
            front == [0, 0, 0, 0] || front == if bigEndian then [0, 0, 0, 2] else [2, 0, 0, 0]
    ensures front == Be32(VSC_CANNOT_ADD_MORE_READERS) ==>
              (Decides(Reply(ErrorCode(front, bigEndian), id)) <==> bigEndian)
  {
    hide FromBe32;
    var q := if bigEndian then front else [front[3], front[2], front[1], front[0]];
    Be32Is(q, VSC_SUCCESS);
    Be32Is(q, VSC_CANNOT_ADD_MORE_READERS);
    assert Be32(VSC_SUCCESS) == [0, 0, 0, 0] && Be32(VSC_CANNOT_ADD_MORE_READERS) == [0, 0, 0, 2];
    if !bigEndian {
      assert front == [q[3], q[2], q[1], q[0]];
    }
  }

  lemma Be32Is(q: seq<byte>, x: nat)
    requires |q| == 4 && x < WORD
    ensures FromBe32(q) == x <==> q == Be32(x)
  {
    hide FromBe32, Be32;
    Be32OfBytes(q);
    BytesOfBe32(x);
  }

  // ---- Why the host must answer nothing else ----

  /** The first reader has taken the answer to the ReaderRemove, its own ReaderAdd is still with the host. */
  const SHIFTED := START.(queue := [Event(2, ReaderInsert)], toHost := [ReaderAdd], adds := [1],
                          ids := map[1 := 10])

  lemma ReachShifted(more: seq<Action>) returns (actions: seq<Action>)
    requires Runs(SHIFTED, more)
    ensures Runs(START, actions) && Run(START, actions) == Run(SHIFTED, more)
  {
    hide Runs, Run;
    var e1, e2 := Event(1, ReaderInsert), Event(2, ReaderInsert);
    var other := HostAnswersOther(Reply(0, 10));
    var s0 := START.(queue := [e1]);
    var s1 := s0.(queue := [e1, e2]);
    var s2 := s1.(queue := [e2], place := WantSlot(e1));
    var s3 := s2.(pending := Some(1), place := Adding(e1));
    var s4 := s3.(toHost := [Leftover, ReaderAdd], adds := [1], place := Idle);
    var s5 := s4.(toHost := [ReaderAdd], toClient := [Answer(Reply(0, 10), false)]);
    var l6 := Goes(s5, Receive, SHIFTED, more);
    var l5 := Goes(s4, other, s5, l6);
    var l4 := Goes(s3, Thread, s4, l5);
    var l3 := Goes(s2, Thread, s3, l4);
    var l2 := Goes(s1, Thread, s2, l3);
    var l1 := Goes(s0, Arrive(e2), s1, l2);
    actions := Goes(START, Arrive(e1), s0, l1);
  }

  /** The second reader is added and takes the id that was meant for the first. */
  const MIXED := SHIFTED.(queue := [], toHost := [ReaderAdd], adds := [1, 2], replies := [Reply(0, 11)],
                          ids := map[1 := 10, 2 := 11])

  lemma ReachMixed(more: seq<Action>) returns (actions: seq<Action>)
    requires Runs(MIXED, more)
    ensures Runs(SHIFTED, actions) && Run(SHIFTED, actions) == Run(MIXED, more)
  {
    hide Runs, Run;
    var e2 := Event(2, ReaderInsert);
    var s7 := SHIFTED.(queue := [], place := WantSlot(e2));
    var s8 := s7.(pending := Some(2), place := Adding(e2));
    var s9 := s8.(toHost := [ReaderAdd, ReaderAdd], adds := [1, 2], place := Idle);
    var s10 := s9.(toHost := [ReaderAdd], toClient := [Answer(Reply(0, 11), true)]);
    var l10 := Goes(s10, Receive, MIXED, more);
    var l9 := Goes(s9, Host(Reply(0, 11)), s10, l10);
    var l8 := Goes(s8, Thread, s9, l9);
    var l7 := Goes(s7, Thread, s8, l8);
    actions := Goes(SHIFTED, Thread, s7, l7);
  }

  /** The host answers the ReaderAdds of readers 1 and 2 with the ids 11 and 12. */
  lemma FinishShifted() returns (actions: seq<Action>)
    ensures Runs(SHIFTED, actions)
    ensures var s := Run(SHIFTED, actions);
            && s.adds == [1, 2] && s.replies == [Reply(0, 11), Reply(0, 12)]
            && IdOf(s, 1) == 10 && IdOf(s, 2) == 11 && s.toHost == [] && s.toClient == []
  {
    hide Runs, Run;
    var s12 := MIXED.(toHost := [], toClient := [Answer(Reply(0, 12), true)]);
    var s13 := s12.(toClient := [], replies := [Reply(0, 11), Reply(0, 12)]);
    Done(s13);
    var l13 := Goes(s12, Receive, s13, []);
    var l12 := Goes(MIXED, Host(Reply(0, 12)), s12, l13);
    actions := ReachMixed(l12);
  }

  /** If the host also answers the ReaderRemove sent at the start, the answers shift: the first reader takes that
    * answer, the second takes the first one's id, and the second's own answer finds nobody. */
  lemma AnsweredRemoveShiftsIds() returns (actions: seq<Action>)
    ensures Runs(START, actions)
    ensures var s := Run(START, actions);
            && s.adds == [1, 2] && s.replies == [Reply(0, 11), Reply(0, 12)]
            && IdOf(s, 1) == 10 && IdOf(s, 2) == 11 && s.toHost == [] && s.toClient == []
  {
    var more := FinishShifted();
    actions := ReachShifted(more);
  }
}
