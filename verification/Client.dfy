/** The client between its socket and its card (src/vscclient.c): messages are read, commands exchanged with the
  * card, and answers queued for the host. */
module Client {
  import opened Bytes
  import opened Apdus
  import opened Card
  import opened CardSteps
  import opened Framing
  import D = Deframer
  import H = Handshake
  import Transfers
  import VCards

  /** What fits into the client's receive buffer. */
  function Reply(answer: seq<byte>): seq<byte> {
    answer[..Min(D.APDU_BUF_SIZE, |answer|)]
  }

  /** The messages sent for one message; `noCard` is the status sent in place of an answer without a card. */
  function Replies(card: Option<CardState>, f: Frame, env: Env, noCard: seq<byte>): seq<Frame>
    requires card.Some? ==> CardOk(card.value)
  {
    if f.kind == D.VSC_APDU then
      match card
      case None => [Frame(D.VSC_ERROR, 0, noCard)]
      case Some(c) => [Frame(D.VSC_APDU, 0, Reply(Answer(c, f.payload, env)))]
    else if f.kind == D.VSC_FLUSH then [Frame(D.VSC_FLUSH_COMPLETE, 0, [])]
    else if f.kind == D.VSC_INIT then [Frame(D.VSC_READER_REMOVE, 0, [])]
    else []
  }

  function CardAfter(c: CardState, f: Frame, env: Env): (d: CardState)
    requires CardOk(c)
    ensures CardOk(d)
  {
    XfrSound(c, f.payload, env);
    if f.kind == D.VSC_APDU then Xfr(c, f.payload, env).card else c
  }

  /** What goes out for one message: for a command (7) one APDU message with the card's answer as far as 270 bytes hold
    * it, or an Error (2) with the status bytes if there is no card; FlushComplete (9) for a Flush (8), ReaderRemove (4)
    * for an Init (1), and nothing for anything else. The reader id is always zero. */
  ghost predicate GoesOut(card: Option<CardState>, f: Frame, env: Env, noCard: seq<byte>, out: seq<Frame>)
    requires card.Some? ==> CardOk(card.value)
  {
    if f.kind == 7 && card.Some? then
      |out| == 1 && out[0].kind == 7 && out[0].id == 0
      && FirstBytes(out[0].payload, Answer(card.value, f.payload, env), 270)
    else if f.kind == 7 then out == [Frame(2, 0, noCard)]
    else if f.kind == 8 then out == [Frame(9, 0, [])]
    else if f.kind == 1 then out == [Frame(4, 0, [])]
    else out == []
  }

  /** `some` is `all`, or its first `most` bytes if there are more. */
  predicate FirstBytes(some: seq<byte>, all: seq<byte>, most: nat) {
    some <= all && (some == all || |some| == most) && |some| <= most
  }

  lemma RepliesGoOut(card: Option<CardState>, f: Frame, env: Env, noCard: seq<byte>)
    requires card.Some? ==> CardOk(card.value)
    ensures GoesOut(card, f, env, noCard, Replies(card, f, env, noCard))
  {
    hide Answer;
    if f.kind == D.VSC_APDU && card.Some? {
      assert FirstBytes(Reply(Answer(card.value, f.payload, env)), Answer(card.value, f.payload, env), 270);
    }
  }

  /** A command runs on the card, and nothing else touches it. */
  lemma OnlyCommandsTouchTheCard(c: CardState, f: Frame, env: Env)
    requires CardOk(c)
    ensures f.kind == 7 ==> CardAfter(c, f, env) == Xfr(c, f.payload, env).card
    ensures f.kind != 7 ==> CardAfter(c, f, env) == c
  {
  }

  /** The reply to a command holds the card's whole answer if and only if that is at most 270 bytes, and it is for
    * every command that asks for at most 268. */
  lemma ReplyIsWhole(c: CardState, raw: seq<byte>, env: Env)
    requires CardOk(c)
    ensures Reply(Answer(c, raw, env)) == Answer(c, raw, env) <==> |Answer(c, raw, env)| <= D.APDU_BUF_SIZE
    ensures Decode(raw).Err? || Decode(raw).apdu.le <= 268 ==> Reply(Answer(c, raw, env)) == Answer(c, raw, env)
  {
    AnswerWithinLe(c, raw, env);
  }

  /** A GET RESPONSE that takes more loses its end: the status word, and then data the card has already let go. */
  lemma LongGetResponse(c: CardState, cla: byte, le: nat, env: Env)
    requires CardOk(c) && Transfers.PlainClass(cla) && le <= 65536
    ensures var raw := Transfers.GetResponseCommand(cla, le);
            var waiting := Transfers.Waiting(c);
            var n := Min(le, |waiting|);
            && (Reply(Answer(c, raw, env)) == Answer(c, raw, env) <==> n <= 268)
            && (n >= 270 ==> Reply(Answer(c, raw, env)) == waiting[..270]
                             && CardOk(Xfr(c, raw, env).card)
                             && Transfers.Waiting(Xfr(c, raw, env).card) == waiting[n..])
  {
    hide Xfr, Decode, Transfers.Served, Transfers.Waiting;
    Transfers.GetResponseStep(c, cla, le, env);
    var raw := Transfers.GetResponseCommand(cla, le);
    ServedBytes(Transfers.Waiting(c), le);
    assert Answer(c, raw, env) == Transfers.Served(Transfers.Waiting(c), le).Bytes();
  }

  lemma ServedBytes(waiting: seq<byte>, le: nat)
    ensures var n, b := Min(le, |waiting|), Transfers.Served(waiting, le).Bytes();
            |b| == n + 2 && b[..n] == waiting[..n]
  {
  }

  // ---- The whole stream ----

  /** Where the card is after some messages, and what has been sent in reply. */
  datatype Talk = Talk(card: Option<CardState>, sent: seq<Frame>)

  /** The messages one after the other; `envs` says what the environment answers during each. */
  function Conversation(card: Option<CardState>, frames: seq<Frame>, envs: nat -> Env, noCard: seq<byte>): (t: Talk)
    requires card.Some? ==> CardOk(card.value)
    ensures t.card.Some? <==> card.Some?
    ensures t.card.Some? ==> CardOk(t.card.value)
  {
    if frames == [] then Talk(card, [])
    else
      var n := |frames| - 1;
      OneMore(Conversation(card, frames[..n], envs, noCard), frames[n], envs(n), noCard)
  }

  function OneMore(t: Talk, f: Frame, env: Env, noCard: seq<byte>): (u: Talk)
    requires t.card.Some? ==> CardOk(t.card.value)
    ensures u.card.Some? <==> t.card.Some?
    ensures u.card.Some? ==> CardOk(u.card.value)
  {
    Talk(if t.card.None? then None else Some(CardAfter(t.card.value, f, env)),
         t.sent + Replies(t.card, f, env, noCard))
  }

  /** The conversation of somebody who has already sent something. */
  function After(card: Option<CardState>, sent: seq<Frame>, frames: seq<Frame>, envs: nat -> Env, noCard: seq<byte>)
    : (t: Talk)
    requires card.Some? ==> CardOk(card.value)
    ensures t.card.Some? ==> CardOk(t.card.value)
  {
    var t := Conversation(card, frames, envs, noCard);
    Talk(t.card, sent + t.sent)
  }

  lemma AfterNothing(card: Option<CardState>, sent: seq<Frame>, envs: nat -> Env, noCard: seq<byte>)
    requires card.Some? ==> CardOk(card.value)
    ensures After(card, sent, [], envs, noCard) == Talk(card, sent)
  {
  }

  lemma AfterSnoc(card: Option<CardState>, sent: seq<Frame>, frames: seq<Frame>, f: Frame, envs: nat -> Env,
                  noCard: seq<byte>)
    requires card.Some? ==> CardOk(card.value)
    ensures After(card, sent, frames + [f], envs, noCard)
         == OneMore(After(card, sent, frames, envs, noCard), f, envs(|frames|), noCard)
  {
    hide Replies, CardAfter, Conversation;
    ConversationSnoc(card, frames, f, envs, noCard);
    var t := Conversation(card, frames, envs, noCard);
    Assoc(sent, t.sent, Replies(t.card, f, envs(|frames|), noCard));
  }

  lemma ConversationSnoc(card: Option<CardState>, frames: seq<Frame>, f: Frame, envs: nat -> Env, noCard: seq<byte>)
    requires card.Some? ==> CardOk(card.value)
    ensures Conversation(card, frames + [f], envs, noCard)
         == OneMore(Conversation(card, frames, envs, noCard), f, envs(|frames|), noCard)
  {
    assert (frames + [f])[..|frames|] == frames;
  }

  /** A message without a payload does nothing to the card. */
  lemma EmptyKeepsCard(c: CardState, f: Frame, env: Env)
    requires CardOk(c) && f.payload == []
    ensures CardAfter(c, f, env) == c
  {
  }

  /** However the stream is cut into reads: the replies sent are those to the messages the stream splits into, in order
    * and with the card handed on from one to the next, at most the last one's missing; and the card is already where
    * all of them take it. */
  lemma RepliesAreToTheSplit(chunks: seq<seq<byte>>, card: Option<CardState>, envs: nat -> Env, noCard: seq<byte>)
    requires D.Possible(D.START, chunks) && D.Run(D.START, chunks).alive
    requires card.Some? ==> CardOk(card.value)
    ensures var done, all := D.Run(D.START, chunks).frames, SplitOf(D.Concat(chunks)).frames;
            var t, u := Conversation(card, done, envs, noCard), Conversation(card, all, envs, noCard);
            && done <= all && |all| <= |done| + 1 && t.card == u.card
            && u.sent == t.sent + (if done == all then [] else Replies(t.card, all[|done|], envs(|done|), noCard))
            && (done != all ==> all[|done|].payload == [])
  {
    hide D.Run, D.Possible, Replies, CardAfter;
    D.DispatchIsTheSplit(chunks);
    var p := D.Run(D.START, chunks);
    var done := p.frames;
    var t := Conversation(card, done, envs, noCard);
    var waiting := D.Behind(p.state.part);
    if waiting == [] {
      assert done + waiting == done && t.sent + [] == t.sent;
    } else {
      assert waiting == [waiting[0]];
      ConversationSnoc(card, done, waiting[0], envs, noCard);
      if t.card.Some? {
        EmptyKeepsCard(t.card.value, waiting[0], envs(|done|));
      }
    }
  }

  // ---- Error messages ----

  /** The code of an error message is read from the start of the payload buffer, however short the message is. It
    * decides about the pending reader exactly when the bytes there say so: the message's own first four, or in place of
    * those it does not have what earlier messages left. */
  lemma ErrorIsReadFromTheBuffer(chunks: seq<seq<byte>>, bigEndian: bool, id: nat)
    requires D.Possible(D.START, chunks)
    requires var p := D.Run(D.START, chunks); p.state.part == [] && p.frames != []
    ensures var p := D.Run(D.START, chunks);
            var n := |p.frames| - 1;
            var own, left := p.frames[n].payload, D.FirstFour(p.frames[..n]);
            && p.state.Ok() && |p.state.buffer[..4]| == 4
            && p.state.buffer[..4] == own[..Min(4, |own|)] + left[Min(4, |own|)..]
            && (H.Decides(H.Reply(H.ErrorCode(p.state.buffer[..4], bigEndian), id)) <==>
                  var front := own[..Min(4, |own|)] + left[Min(4, |own|)..];
                  front == [0, 0, 0, 0] || front == if bigEndian then [0, 0, 0, 2] else [2, 0, 0, 0])
  {
    hide D.Run, D.Possible, H.Decides, H.ErrorCode;
    D.BufferIsLeftOver(chunks);
    H.BytesThatDecide(D.Run(D.START, chunks).state.buffer[..4], bigEndian, id);
  }

  /** So an error message without a payload says success to a client that has received nothing but empty messages, and
    * says nothing to one for which the Init message was the last with a payload. */
  lemma EmptyErrors(frames: seq<Frame>, more: seq<Frame>, bigEndian: bool, id: nat)
    requires forall i :: 0 <= i < |more| ==> more[i].payload == []
    ensures H.ErrorCode(D.FirstFour(more), bigEndian) == H.VSC_SUCCESS
    ensures frames != [] && D.MAGIC <= frames[|frames| - 1].payload ==>
              !H.Decides(H.Reply(H.ErrorCode(D.FirstFour(frames + more), bigEndian), id))
  {
    D.EmptyLeavesAll([], more);
    assert [] + more == more;
    D.EmptyLeavesAll(frames, more);
    if frames != [] && D.MAGIC <= frames[|frames| - 1].payload {
      assert D.FirstFour(frames) == D.MAGIC;
      H.BytesThatDecide(D.MAGIC, bigEndian, id);
    }
  }

  // ---- The connection ----

  /** The client's socket, both ways, and the reader behind it. */
  class Connection {
    const incoming: D.Reader
    const outgoing: D.Sender
    const reader: VCards.VReader

    constructor (incoming: D.Reader, outgoing: D.Sender, reader: VCards.VReader)
      ensures this.incoming == incoming && this.outgoing == outgoing && this.reader == reader
    {
      this.incoming, this.outgoing, this.reader := incoming, outgoing, reader;
    }

    ghost function CardView(): (c: Option<CardState>)
      reads reader, reader.card, if reader.card == null then {} else {reader.card.current}
    {
      if reader.card == null then None else Some(reader.card.View())
    }

    /** The case of a command: its answer, as far as it fits the buffer, or the status without a card. */
    method Exchange(f: Frame, env: Env, noCard: seq<byte>)
      requires outgoing.Valid() && (reader.card != null ==> reader.card.Ready()) && |noCard| == 4
      requires f.kind == D.VSC_APDU
      modifies outgoing, if reader.card == null then {} else {reader.card, reader.card.current}
      ensures outgoing.Valid() && reader.card == old(reader.card) && (reader.card != null ==> reader.card.Ready())
      ensures old(CardView()).Some? ==> CardOk(old(CardView()).value)
                                        && CardView() == Some(CardAfter(old(CardView()).value, f, env))
      ensures outgoing.messages == old(outgoing.messages) + Replies(old(CardView()), f, env, noCard)
      ensures old(outgoing.messages) <= outgoing.messages
              && GoesOut(old(CardView()), f, env, noCard, outgoing.messages[|old(outgoing.messages)|..])
    {
      hide GoesOut, Xfr, Answer, CardOk, D.Sender.Valid;
      RepliesGoOut(CardView(), f, env, noCard);
      ghost var before := outgoing.messages;
      var buffer := new byte[D.APDU_BUF_SIZE];
      var status, size := reader.XfrBytes(f.payload, buffer, env);
      if status == VCards.ReaderOk {
        outgoing.SendMsg(D.VSC_APDU, f.id, buffer[..size]);
      } else {
        outgoing.SendMsg(D.VSC_ERROR, f.id, noCard);
      }
      assert outgoing.messages[|before|..] == Replies(old(CardView()), f, env, noCard);
    }

    /** The branch of do_socket_read for one complete message; the reader is the one the message names. */
    method Dispatch(f: Frame, env: Env, noCard: seq<byte>)
      requires outgoing.Valid() && (reader.card != null ==> reader.card.Ready()) && |noCard| == 4
      modifies outgoing, if reader.card == null then {} else {reader.card, reader.card.current}
      ensures outgoing.Valid() && reader.card == old(reader.card) && (reader.card != null ==> reader.card.Ready())
      ensures old(CardView()).Some? ==> CardOk(old(CardView()).value)
                                        && CardView() == Some(CardAfter(old(CardView()).value, f, env))
      ensures outgoing.messages == old(outgoing.messages) + Replies(old(CardView()), f, env, noCard)
      ensures old(outgoing.messages) <= outgoing.messages
              && GoesOut(old(CardView()), f, env, noCard, outgoing.messages[|old(outgoing.messages)|..])
    {
      hide GoesOut, Xfr, Answer, CardOk, D.Sender.Valid;
      RepliesGoOut(CardView(), f, env, noCard);
      ghost var before := outgoing.messages;
      if f.kind == D.VSC_APDU {
        Exchange(f, env, noCard);
      } else if f.kind == D.VSC_FLUSH {
        outgoing.SendMsg(D.VSC_FLUSH_COMPLETE, f.id, []);
      } else if f.kind == D.VSC_INIT {
        outgoing.SendMsg(D.VSC_READER_REMOVE, 0, []);
      } else {
        assert outgoing.messages + [] == outgoing.messages;
      }
      assert outgoing.messages[|before|..] == Replies(old(CardView()), f, env, noCard);
    }

    /** One call of do_socket_read with its dispatch. */
    method OnSocket(got: seq<byte>, env: Env, noCard: seq<byte>) returns (keep: bool, frame: Option<Frame>)
      requires incoming.Valid() && incoming.View().Ok() && incoming.View().Gives(got)
      requires outgoing.Valid() && (reader.card != null ==> reader.card.Ready()) && |noCard| == 4
      modifies incoming, incoming.header, incoming.payload, outgoing
      modifies if reader.card == null then {} else {reader.card, reader.card.current}
      ensures outgoing.Valid() && reader.card == old(reader.card) && (reader.card != null ==> reader.card.Ready())
      ensures keep == D.Read(old(incoming.View()), got).keep && frame == D.Read(old(incoming.View()), got).frame
      ensures keep ==> incoming.Valid() && incoming.View() == D.Read(old(incoming.View()), got).next
      ensures old(CardView()).Some? ==> CardOk(old(CardView()).value)
      ensures Talk(CardView(), outgoing.messages)
           == if frame.None? then Talk(old(CardView()), old(outgoing.messages))
              else OneMore(Talk(old(CardView()), old(outgoing.messages)), frame.value, env, noCard)
    {
      hide D.Read, D.Reader.View, D.Reader.Valid, D.Sender.Valid, Replies, CardAfter, CardOk;
      keep, frame := incoming.SocketRead(got);
      if frame.Some? {
        Dispatch(frame.value, env, noCard);
      }
    }

    /** do_socket_read, called for one read after the other until one says to stop: what has been dispatched, what has
      * been sent and where the card is. */
    method Serve(chunks: seq<seq<byte>>, envs: nat -> Env, noCard: seq<byte>) returns (keep: bool, count: nat)
      requires incoming.Valid() && incoming.View() == D.START.state && D.Possible(D.START, chunks)
      requires outgoing.Valid() && (reader.card != null ==> reader.card.Ready()) && |noCard| == 4
      modifies incoming, incoming.header, incoming.payload, outgoing
      modifies if reader.card == null then {} else {reader.card, reader.card.current}
      ensures outgoing.Valid() && reader.card == old(reader.card) && (reader.card != null ==> reader.card.Ready())
      ensures keep == D.Run(D.START, chunks).alive && count == |D.Run(D.START, chunks).frames|
      ensures old(CardView()).Some? ==> CardOk(old(CardView()).value)
      ensures Talk(CardView(), outgoing.messages)
           == After(old(CardView()), old(outgoing.messages), D.Run(D.START, chunks).frames, envs, noCard)
    {
      hide D.Read, CardOk, OneMore, After, Conversation;
      ghost var card, sent, p := CardView(), outgoing.messages, D.START;
      CardIsOk();
      AfterNothing(card, sent, envs, noCard);
      keep, count := true, 0;
      for i := 0 to |chunks|
        invariant p.state.Ok() && D.Possible(p, chunks[i..]) && D.Run(p, chunks[i..]) == D.Run(D.START, chunks)
        invariant keep && p.alive && count == |p.frames| && incoming.Valid() && incoming.View() == p.state
        invariant outgoing.Valid() && reader.card == old(reader.card) && (reader.card != null ==> reader.card.Ready())
        invariant Talk(CardView(), outgoing.messages) == After(card, sent, p.frames, envs, noCard)
      {
        assert chunks[i..][1..] == chunks[i + 1..];
        ghost var q := D.OneMore(p, chunks[i]);
        var frame;
        keep, frame := OnSocket(chunks[i], envs(count), noCard);
        if frame.Some? {
          AfterSnoc(card, sent, p.frames, frame.value, envs, noCard);
          count := count + 1;
        }
        p := q;
        if !keep {
          D.DeadStays(p, chunks[i + 1..]);
          return;
        }
      }
    }

    lemma CardIsOk()
      requires reader.card != null ==> reader.card.Ready()
      ensures CardView().Some? ==> CardOk(CardView().value)
    {
    }
  }
}
