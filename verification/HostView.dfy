/** What a host at the other end of the socket sees: it sends commands as messages, splits the bytes that come back into
  * messages again and reads the answers out of their payloads. */
module HostView {
  import opened Bytes
  import opened Apdus
  import opened Card
  import opened CardSteps
  import opened Framing
  import opened Client
  import opened Transfers
  import Answers

  /** The messages for a row of GET RESPONSE commands. */
  function FetchFrames(id: nat, cla: byte, l: seq<Fetch>): (fs: seq<Frame>)
    requires FetchesOk(l)
    ensures |fs| == |l|
  {
    if l == [] then [] else [Frame(7, id, GetResponseCommand(cla, l[0].le))] + FetchFrames(id, cla, l[1..])
  }

  /** The messages for a command and, if its answer only announces data, those that fetch them. */
  function AskFrames(id: nat, cla: byte, raw: seq<byte>, l: seq<Fetch>, announced: bool): seq<Frame>
    requires FetchesOk(l)
  {
    [Frame(7, id, raw)] + if announced then FetchFrames(id, cla, l) else []
  }

  /** The data in one answer: everything before the status word. */
  function DataOf(answer: seq<byte>): seq<byte> {
    if |answer| < 2 then [] else answer[..|answer| - 2]
  }

  function AllData(fs: seq<Frame>): seq<byte> {
    if fs == [] then [] else DataOf(fs[0].payload) + AllData(fs[1..])
  }

  predicate IsAnnouncement(answer: seq<byte>) {
    |answer| >= 2 && answer[|answer| - 2] == 0x61
  }

  /** What the host makes of the replies to a command: the data of the first, or of those that follow when the first
    * announces them. */
  function DataIn(replies: seq<Frame>): seq<byte>
    requires replies != []
  {
    if IsAnnouncement(replies[0].payload) then AllData(replies[1..]) else DataOf(replies[0].payload)
  }

  /** What the environment answers during the messages behind the first. */
  function Later(envs: nat -> Env): nat -> Env {
    (k: nat) => envs(k + 1)
  }

  /** The first message of a conversation, then the others. */
  lemma {:induction false} ConversationCons(card: Option<CardState>, f: Frame, rest: seq<Frame>, envs: nat -> Env,
                                            noCard: seq<byte>)
    requires card.Some? ==> CardOk(card.value)
    ensures var t := OneMore(Talk(card, []), f, envs(0), noCard);
            var u := Conversation(t.card, rest, Later(envs), noCard);
            Conversation(card, [f] + rest, envs, noCard) == Talk(u.card, t.sent + u.sent)
    decreases |rest|
  {
    hide Conversation, OneMore, CardOk;
    var t := OneMore(Talk(card, []), f, envs(0), noCard);
    if rest == [] {
      OnlyOne(card, f, envs, noCard);
    } else {
      var n := |rest| - 1;
      ConversationCons(card, f, rest[..n], envs, noCard);
      LastApart(f, rest);
      ConversationSnoc(card, [f] + rest[..n], rest[n], envs, noCard);
      ConversationSnoc(t.card, rest[..n], rest[n], Later(envs), noCard);
      var u := Conversation(t.card, rest[..n], Later(envs), noCard);
      OneMoreBehind(t.sent, u, rest[n], envs(n + 1), noCard);
    }
  }

  lemma LastApart(f: Frame, rest: seq<Frame>)
    requires rest != []
    ensures var n := |rest| - 1;
            && [f] + rest == ([f] + rest[..n]) + [rest[n]] && rest == rest[..n] + [rest[n]]
            && |[f] + rest[..n]| == n + 1
  {
  }

  lemma OnlyOne(card: Option<CardState>, f: Frame, envs: nat -> Env, noCard: seq<byte>)
    requires card.Some? ==> CardOk(card.value)
    ensures var t := OneMore(Talk(card, []), f, envs(0), noCard);
            var u := Conversation(t.card, [], Later(envs), noCard);
            Conversation(card, [f] + [], envs, noCard) == Talk(u.card, t.sent + u.sent)
  {
    hide Replies, CardAfter, CardOk;
    assert [f] + [] == [] + [f];
    ConversationSnoc(card, [], f, envs, noCard);
    var t := OneMore(Talk(card, []), f, envs(0), noCard);
    assert t.sent + [] == t.sent;
  }

  lemma OneMoreBehind(sent: seq<Frame>, u: Talk, g: Frame, env: Env, noCard: seq<byte>)
    requires u.card.Some? ==> CardOk(u.card.value)
    ensures var v := OneMore(u, g, env, noCard);
            OneMore(Talk(u.card, sent + u.sent), g, env, noCard) == Talk(v.card, sent + v.sent)
  {
    hide Replies, CardAfter;
    Assoc(sent, u.sent, Replies(u.card, g, env, noCard));
  }

  /** The environment of each message is the one the commands were meant for. */
  ghost predicate EnvsFit(envs: nat -> Env, l: seq<Fetch>) {
    forall k :: 0 <= k < |l| ==> envs(k) == l[k].env
  }

  predicate Short(l: seq<Fetch>) {
    forall k :: 0 <= k < |l| ==> l[k].le <= 268
  }

  /** Every answer of the row in a message of its own. */
  function Packed(answers: seq<Response>): (fs: seq<Frame>)
    ensures |fs| == |answers|
  {
    if answers == [] then [] else [Frame(7, 0, answers[0].Bytes())] + Packed(answers[1..])
  }

  /** One command over the wire: the reply holds its whole answer. */
  lemma CommandOverTheWire(c: CardState, f: Frame, env: Env, noCard: seq<byte>)
    requires CardOk(c) && f.kind == 7 && (Decode(f.payload).Ok? ==> Decode(f.payload).apdu.le <= 268)
    ensures Xfr(c, f.payload, env).response.Some? && CardOk(Xfr(c, f.payload, env).card)
    ensures OneMore(Talk(Some(c), []), f, env, noCard)
         == Talk(Some(Xfr(c, f.payload, env).card), [Frame(7, 0, Xfr(c, f.payload, env).response.value.Bytes())])
  {
    hide Xfr, Decode;
    XfrSound(c, f.payload, env);
    ReplyIsWhole(c, f.payload, env);
    assert [] + Replies(Some(c), f, env, noCard) == Replies(Some(c), f, env, noCard);
  }

  lemma FetchDecodes(cla: byte, le: nat)
    requires le <= 65536
    ensures Decode(GetResponseCommand(cla, le)).Ok? && Decode(GetResponseCommand(cla, le)).apdu.le == le
  {
    hide Decode;
    DecodeCommand(cla, 0xc0, 0x00, 0x00, FormFor([], le, le > 256));
  }

  lemma DrainCons(c: CardState, cla: byte, l: seq<Fetch>)
    requires CardOk(c) && FetchesOk(l) && l != []
    ensures var o := Xfr(c, GetResponseCommand(cla, l[0].le), l[0].env);
            && o.response.Some? && CardOk(o.card)
            && var rest := Drain(o.card, cla, l[1..]);
               Drain(c, cla, l) == Drained(rest.card, [o.response.value] + rest.answers)
  {
    XfrSound(c, GetResponseCommand(cla, l[0].le), l[0].env);
    hide Xfr;
  }

  /** A row of GET RESPONSE commands over the wire. */
  lemma {:induction false} DrainOverTheWire(c: CardState, id: nat, cla: byte, l: seq<Fetch>, envs: nat -> Env,
                                            noCard: seq<byte>)
    requires CardOk(c) && FetchesOk(l) && Short(l) && EnvsFit(envs, l)
    ensures var d := Drain(c, cla, l);
            Conversation(Some(c), FetchFrames(id, cla, l), envs, noCard) == Talk(Some(d.card), Packed(d.answers))
    decreases l
  {
    hide Drain, OneMore, CardOk, Decode;
    if l == [] {
      NoFetches(c, id, cla, envs, noCard);
    } else {
      var f := Frame(7, id, GetResponseCommand(cla, l[0].le));
      FetchDecodes(cla, l[0].le);
      CommandOverTheWire(c, f, envs(0), noCard);
      DrainCons(c, cla, l);
      var next := Xfr(c, f.payload, envs(0)).card;
      ConversationCons(Some(c), f, FetchFrames(id, cla, l[1..]), envs, noCard);
      DrainOverTheWire(next, id, cla, l[1..], Later(envs), noCard);
    }
  }

  lemma NoFetches(c: CardState, id: nat, cla: byte, envs: nat -> Env, noCard: seq<byte>)
    requires CardOk(c)
    ensures Drain(c, cla, []) == Drained(c, [])
    ensures Conversation(Some(c), FetchFrames(id, cla, []), envs, noCard) == Talk(Some(c), Packed([]))
  {
  }

  lemma {:induction false} PackedData(answers: seq<Response>)
    requires forall k :: 0 <= k < |answers| ==> answers[k].Response?
    ensures AllData(Packed(answers)) == Gather(answers)
  {
    if answers != [] {
      PackedData(answers[1..]);
      assert DataOf(answers[0].Bytes()) == answers[0].data;
    }
  }

  lemma {:induction false} DrainAnswers(c: CardState, cla: byte, l: seq<Fetch>)
    requires CardOk(c) && FetchesOk(l)
    ensures var d := Drain(c, cla, l); forall k :: 0 <= k < |d.answers| ==> d.answers[k].Response?
    decreases l
  {
    hide CardOk, Drain;
    if l != [] {
      XfrSound(c, GetResponseCommand(cla, l[0].le), l[0].env);
      DrainCons(c, cla, l);
      DrainAnswers(Xfr(c, GetResponseCommand(cla, l[0].le), l[0].env).card, cla, l[1..]);
    } else {
      assert Drain(c, cla, l).answers == [] by {
        NoFetches(c, 0, cla, _ => Untouched(), []);
      }
    }
  }

  /** Some environment. */
  function Untouched(): Env {
    Env(0x6f00, _ => 0, false, 0, 0x6f00, None)
  }

  /** Whatever a host gets by sending a command and fetching what it announces, it gets over the wire, as long as no Le
    * is above 268: out of the payloads of the replies come the same data, and the card ends in the same state. */
  lemma AskOverTheWire(c: CardState, id: nat, cla: byte, raw: seq<byte>, l: seq<Fetch>, envs: nat -> Env,
                       noCard: seq<byte>)
    requires CardOk(c) && FetchesOk(l) && Short(l) && EnvsFit(Later(envs), l)
    requires Decode(raw).Ok? ==> Decode(raw).apdu.le <= 268
    ensures var fs := AskFrames(id, cla, raw, l, IsAnnouncement(Answer(c, raw, envs(0))));
            var t := Conversation(Some(c), fs, envs, noCard);
            var (d, data) := Ask(c, cla, raw, l, envs(0));
            t.card == Some(d) && |t.sent| == |fs| && DataIn(t.sent) == data
  {
    hide Drain, Xfr, Decode, CardOk, Conversation, OneMore;
    XfrSound(c, raw, envs(0));
    var o := Xfr(c, raw, envs(0));
    var f := Frame(7, id, raw);
    CommandOverTheWire(c, f, envs(0), noCard);
    if IsAnnouncement(Answer(c, raw, envs(0))) {
      ConversationCons(Some(c), f, FetchFrames(id, cla, l), envs, noCard);
      DrainOverTheWire(o.card, id, cla, l, Later(envs), noCard);
      DrainAnswers(o.card, cla, l);
      PackedData(Drain(o.card, cla, l).answers);
      assert ([Frame(7, 0, o.response.value.Bytes())] + Packed(Drain(o.card, cla, l).answers))[1..]
          == Packed(Drain(o.card, cla, l).answers);
      DrainLength(o.card, cla, l);
    } else {
      ConversationCons(Some(c), f, [], envs, noCard);
      NoFetches(o.card, id, cla, Later(envs), noCard);
      assert [f] + [] == [f];
      assert DataOf(o.response.value.Bytes()) == o.response.value.data;
    }
  }

  lemma {:induction false} DrainLength(c: CardState, cla: byte, l: seq<Fetch>)
    requires CardOk(c) && FetchesOk(l)
    ensures |Drain(c, cla, l).answers| == |l|
    decreases l
  {
    hide CardOk;
    if l != [] {
      DrainCons(c, cla, l);
      DrainLength(Xfr(c, GetResponseCommand(cla, l[0].le), l[0].env).card, cla, l[1..]);
    }
  }

  // ---- Bytes ----

  /** Every message that is sent fits its header, so the host splits them out as they are. */
  lemma {:induction false} RepliesFit(card: Option<CardState>, fs: seq<Frame>, envs: nat -> Env, noCard: seq<byte>)
    requires (card.Some? ==> CardOk(card.value)) && |noCard| == 4
    ensures AllOk(Conversation(card, fs, envs, noCard).sent)
  {
    hide Answer, CardAfter;
    if fs != [] {
      RepliesFit(card, fs[..|fs| - 1], envs, noCard);
    }
  }

  /** The bytes of the replies behind whatever was sent before. */
  lemma HostSplitsReplies(before: seq<Frame>, card: Option<CardState>, fs: seq<Frame>, envs: nat -> Env,
                          noCard: seq<byte>)
    requires AllOk(before) && (card.Some? ==> CardOk(card.value)) && |noCard| == 4
    ensures var sent := Conversation(card, fs, envs, noCard).sent;
            SplitOf(WireAll(before + sent)) == Split(before + sent, [])
  {
    hide Conversation, CardOk;
    RepliesFit(card, fs, envs, noCard);
    var all := before + Conversation(card, fs, envs, noCard).sent;
    SplitInvertsWire(all, []);
    assert WireAll(all) + [] == WireAll(all);
  }

  /** From the bytes the client sends back for a SELECT by AID, behind whatever it has sent before, the host reads a
    * template with that AID, or the card manager's own. */
  lemma HostReadsTemplate(c: CardState, before: seq<Frame>, id: nat, cla: byte, aid: seq<byte>, le: nat, l: seq<Fetch>,
                          envs: nat -> Env, noCard: seq<byte>)
    requires CardOk(c) && PlainClass(cla) && le <= 256 && |aid| <= 255 && FindApplet(c.applets, aid).Some?
    requires FetchesOk(l) && Short(l) && EnvsFit(Later(envs), l) && Total(l) >= 27
    requires AllOk(before) && |noCard| == 4
    ensures var raw := [cla, 0xa4, 0x04, 0x00] + FormFor(aid, le, false).Tail();
            var fs := AskFrames(id, cla, raw, l, IsAnnouncement(Answer(c, raw, envs(0))));
            var got := SplitOf(WireAll(before + Conversation(Some(c), fs, envs, noCard).sent)).frames;
            && |got| == |before| + |fs| && got[..|before|] == before
            && var data := DataIn(got[|before|..]);
               if FindApplet(c.applets, aid) == FindApplet(c.applets, GP_AID) then data == GP_RESPONSE
               else Answers.AidIn(data) == Some(aid)
  {
    hide Conversation, Ask, CardOk, Decode, FindApplet, Answer, AskFrames;
    var f := FormFor(aid, le, false);
    var raw := [cla, 0xa4, 0x04, 0x00] + f.Tail();
    assert raw == Answers.SelectCommand(cla, aid, le, false);
    DecodeCommand(cla, 0xa4, 0x04, 0x00, f);
    Answers.SelectArrives(c, cla, aid, le, false, l, envs(0));
    AskOverTheWire(c, id, cla, raw, l, envs, noCard);
    var fs := AskFrames(id, cla, raw, l, IsAnnouncement(Answer(c, raw, envs(0))));
    HostSplitsReplies(before, Some(c), fs, envs, noCard);
    var sent := Conversation(Some(c), fs, envs, noCard).sent;
    assert (before + sent)[|before|..] == sent && (before + sent)[..|before|] == before;
  }
}
