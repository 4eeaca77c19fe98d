/** What every command is answered, from its raw bytes: the status words of all refusals, signing, choosing an object,
  * GET DATA, and what a reset leaves. Class bytes, instructions and status words are written as in section 5 of
  * ISO/IEC 7816-4:1995. */
module Commands {
  import opened Bytes
  import opened Apdus
  import opened Card
  import opened CardSteps
  import Transfers

  /** The channel a class byte addresses: its two lowest bits where the upper digit is 0, 8, 9 or A. */
  function ChannelOf(cla: byte): (ch: nat)
    ensures ch < 4
  {
    if cla <= 0x0f || 0x80 <= cla <= 0xaf then cla % 4 else 0
  }

  lemma ChannelIs(cla: byte)
    ensures Channel(cla) == ChannelOf(cla)
  {
  }

  /** A class the card's own commands take: no secure messaging, neither reserved nor proprietary. */
  predicate Ordinary(cla: byte) {
    cla <= 0x01 || cla == 0x80 || cla == 0x81 || cla == 0x90 || cla == 0x91 || cla == 0xa0 || cla == 0xa1
    || 0xb0 <= cla <= 0xcf
  }

  function Word(hi: nat, lo: nat): nat {
    hi * 0x100 + lo
  }

  /** Only GET RESPONSE leaves what is pending. */
  function Dropped(c: CardState, raw: seq<byte>): CardState
    requires |raw| >= 4
  {
    if raw[1] == 0xc0 then c else c.(pending := None)
  }

  /** The answer is a status word alone; the card is `d` afterwards, and no key was used. */
  ghost predicate Bare(o: Outcome, hi: byte, lo: byte, d: CardState) {
    o.status == Done && o.response == Some(Response([], hi, lo)) && o.card == d && o.signed.None?
  }

  /** The command has one of the structures of the standard; its body is `body`. */
  predicate Carries(raw: seq<byte>, body: seq<byte>) {
    |raw| >= 4 && Decode(raw).Ok? && Decode(raw).apdu.body == body
  }

  lemma Routed(c: CardState, raw: seq<byte>, env: Env)
    requires CardOk(c) && Decode(raw).Ok?
    ensures |raw| >= 4 && CardOk(Dropped(c, raw))
    ensures var a, d := Decode(raw).apdu, Dropped(c, raw);
            && a.ins == raw[1] && a.p1 == raw[2] && a.p2 == raw[3] && a.channel == ChannelOf(raw[0])
            && (a.secureMessaging == 0 ==> a.channel < 2)
            && (a.genType == Iso && a.secureMessaging == 0 <==> Ordinary(raw[0]))
            && (a.genType != Iso <==> 0x10 <= raw[0] <= 0x7f || raw[0] >= 0xd0)
            && Xfr(c, raw, env) == var o := AppletProcess(d, a, env);
                                   if o.status != Next then o else VmProcess(d, a, env)
  {
    hide AppletProcess, VmProcess, Classify;
    DecodedChannel(raw);
  }

  // ---- Malformed commands ----

  /** A byte string that is not a command is refused, and changes nothing, not even what is pending. */
  lemma MalformedIsRefused(c: CardState, raw: seq<byte>, env: Env)
    requires CardOk(c)
    requires !(4 <= |raw| && exists f: Form :: f.InRange() && raw == raw[..4] + f.Tail())
    ensures Bare(Xfr(c, raw, env), 0x67, 0x00, c)
  {
    hide Process;
    DecodeIsExact(raw);
  }

  // ---- Commands no applet takes ----

  /** No applet is selected on the command's channel, or it passes the command on. */
  predicate NobodyTakes(c: CardState, raw: seq<byte>)
    requires CardOk(c) && |raw| >= 4
  {
    match c.current[ChannelOf(raw[0])]
    case None => true
    case Some(i) =>
      if c.applets[i].kind.DataObjects? then raw[1] != 0xca
      else raw[1] == 0xc0 || raw[1] == 0x20 || (raw[1] == 0xa4 && raw[2] != 0x02)
  }

  lemma PassedOn(c: CardState, raw: seq<byte>, env: Env)
    requires CardOk(c) && Decode(raw).Ok? && |raw| >= 4 && NobodyTakes(c, raw)
    ensures CardOk(Dropped(c, raw)) && Decode(raw).apdu.channel < 4
    ensures Xfr(c, raw, env) == VmProcess(Dropped(c, raw), Decode(raw).apdu, env)
  {
    hide Xfr, Decode, VmProcess;
    Routed(c, raw, env);
    var d, a := Dropped(c, raw), Decode(raw).apdu;
    AppletSound(d, a, env);
    match d.current[a.channel]
    case None =>
    case Some(i) =>
      if d.applets[i].kind.DataObjects? {
        DataObjectsSound(d, i, a);
      }
  }

  /** What the card itself refuses: reserved and proprietary classes, secure messaging, instructions it does not know,
    * other selections than by AID, other references than the PIN, and GET RESPONSE with nothing pending. */
  lemma CardRefuses(c: CardState, raw: seq<byte>, env: Env)
    requires CardOk(c) && Decode(raw).Ok? && |raw| >= 4 && NobodyTakes(c, raw)
    ensures var o, d := Xfr(c, raw, env), Dropped(c, raw);
            && (0x10 <= raw[0] <= 0x7f || raw[0] >= 0xd0 ==> Bare(o, 0x69, 0x00, d))
            && ((raw[0] <= 0x0f || 0x80 <= raw[0] <= 0xaf) && raw[0] % 0x10 >= 2 ==> Bare(o, 0x68, 0x82, d))
            && (Ordinary(raw[0]) ==>
                  && (raw[1] != 0xa4 && raw[1] != 0x20 && raw[1] != 0xc0 ==> Bare(o, 0x69, 0x00, d))
                  && (raw[1] == 0xa4 && raw[2] != 0x04 ==> Bare(o, 0x6a, 0x81, d))
                  && (raw[1] == 0x20 && (raw[2] != 0x00 || raw[3] != 0x00) ==> Bare(o, 0x6a, 0x00, d))
                  && (raw[1] == 0xc0 && c.pending.None? ==> Bare(o, 0x6a, 0x88, d)))
  {
    hide Xfr, Decode, AppletProcess;
    Routed(c, raw, env);
    PassedOn(c, raw, env);
  }

  // ---- Commands an applet takes ----

  /** The applet at index `i` is selected on the command's channel. */
  predicate To(c: CardState, raw: seq<byte>, i: nat) {
    CardOk(c) && |raw| >= 4 && c.current[ChannelOf(raw[0])] == Some(i)
  }

  /** The kinds that share cac_common_process_apdu. */
  predicate IsCac(k: Kind) {
    !k.DataObjects?
  }

  predicate IsContainer(k: Kind) {
    k.Plain? || k.Pki? || k.Passthrough?
  }

  lemma CommonTakes(c: CardState, raw: seq<byte>, env: Env, i: nat)
    requires To(c, raw, i) && Decode(raw).Ok? && IsCac(c.applets[i].kind)
    requires raw[1] != 0x52 && raw[1] != 0x58 && raw[1] != 0x42 && raw[1] != 0x4c
    ensures CardOk(Dropped(c, raw))
    ensures var o := Common(Dropped(c, raw), i, Decode(raw).apdu);
            o.status != Next ==> Xfr(c, raw, env) == o
  {
    hide Xfr, Decode, VmProcess, Common;
    Routed(c, raw, env);
  }

  /** GET PROPERTIES with a wrong P1, P2 or body. */
  lemma PropertiesRefused(c: CardState, raw: seq<byte>, body: seq<byte>, env: Env, i: nat)
    requires To(c, raw, i) && Carries(raw, body) && IsCac(c.applets[i].kind) && raw[1] == 0x56
    ensures var o, d := Xfr(c, raw, env), Dropped(c, raw);
            && (raw[3] != 0x00 ==> Bare(o, 0x6a, 0x86, d))
            && (raw[2] != 0x01 && raw[2] != 0x02 && raw[2] != 0x40 ==> Bare(o, 0x6a, 0x86, d))
            && (raw[3] == 0x00 && raw[2] == 0x01 && body != [] ==> Bare(o, 0x69, 0x84, d))
            && (raw[3] == 0x00 && raw[2] == 0x02 && body == [] ==> Bare(o, 0x69, 0x84, d))
  {
    hide Xfr, Decode, GetProperties;
    Routed(c, raw, env);
    CommonTakes(c, raw, env, i);
    CommonSound(Dropped(c, raw), i, Decode(raw).apdu);
  }

  /** SELECT of an object: exactly the object ids of the applet are found. */
  lemma ObjectIsFound(c: CardState, raw: seq<byte>, body: seq<byte>, env: Env, i: nat)
    requires To(c, raw, i) && Carries(raw, body) && IsCac(c.applets[i].kind) && raw[1] == 0xa4 && raw[2] == 0x02
    ensures var o, d := Xfr(c, raw, env), Dropped(c, raw);
            if |body| != 2 then Bare(o, 0x69, 0x84, d)
            else if exists k :: 0 <= k < |c.applets[i].coids| && c.applets[i].coids[k] == (body[0], body[1]) then
              Bare(o, 0x90, 0x00, d)
            else Bare(o, 0x6a, 0x82, d)
  {
    hide Xfr, Decode, PropertiesArm;
    Routed(c, raw, env);
    CommonTakes(c, raw, env, i);
    CommonSound(Dropped(c, raw), i, Decode(raw).apdu);
  }

  /** The instructions each kind of CAC applet knows. */
  predicate Knows(k: Kind, ins: byte) {
    ins == 0x56 || ins == 0xa4 || ins == 0xc0 || ins == 0x20
    || (IsContainer(k) && (ins == 0x52 || ins == 0x58)) || (k.Pki? && ins == 0x42) || (k.Aca? && ins == 0x4c)
  }

  /** Any other instruction is refused, and so is UPDATE BUFFER, by a certificate's applet with a status of its own. */
  lemma InstructionRefused(c: CardState, raw: seq<byte>, env: Env, i: nat)
    requires To(c, raw, i) && Decode(raw).Ok? && IsCac(c.applets[i].kind)
    ensures var o, d, k := Xfr(c, raw, env), Dropped(c, raw), c.applets[i].kind;
            && (!Knows(k, raw[1]) ==> Bare(o, 0x6d, 0x00, d))
            && (raw[1] == 0x58 && (k.Plain? || k.Passthrough?) ==> Bare(o, 0x69, 0x00, d))
            && (raw[1] == 0x58 && k.Pki? ==> Bare(o, 0x69, 0x85, d))
  {
    hide Xfr, Decode, VmProcess, PropertiesArm, ReadBuffer, GetAcr;
    Routed(c, raw, env);
  }

  /** Get ACR with a wrong P1, P2 or length. */
  lemma AcrRefused(c: CardState, raw: seq<byte>, body: seq<byte>, env: Env, i: nat)
    requires To(c, raw, i) && Carries(raw, body) && c.applets[i].kind.Aca? && raw[1] == 0x4c
    ensures var o, d, p1 := Xfr(c, raw, env), Dropped(c, raw), raw[2];
            var n := if p1 == 0x01 then 1 else if p1 == 0x11 then 7 else if p1 == 0x12 then 2 else 0;
            var known := p1 in {0x00, 0x01, 0x10, 0x11, 0x12, 0x20, 0x21, 0x40, 0x41, 0x50, 0x51, 0x52, 0x60, 0x61};
            && (raw[3] != 0x00 ==> Bare(o, 0x6a, 0x86, d))
            && (raw[3] == 0x00 && !known ==> Bare(o, 0x69, 0x00, d))
            && (raw[3] == 0x00 && known && |body| != n ==> Bare(o, 0x69, 0x84, d))
  {
    hide Xfr, Decode, VmProcess, Common, SendTable, Send, PickTable;
    Routed(c, raw, env);
    TablePicked(c.applets[i].kind, Decode(raw).apdu);
  }

  lemma TablePicked(k: Kind, a: Apdu)
    requires k.Aca? && k.pki <= 10 && k.tables.Ok()
    ensures var n := if a.p1 == 0x01 then 1 else if a.p1 == 0x11 then 7 else if a.p1 == 0x12 then 2 else 0;
            var known := a.p1 in {0x00, 0x01, 0x10, 0x11, 0x12, 0x20, 0x21, 0x40, 0x41, 0x50, 0x51, 0x52, 0x60, 0x61};
            && (a.p2 != 0x00 ==> PickTable(k, a) == Refuse(0x6a86))
            && (a.p2 == 0x00 && !known ==> PickTable(k, a) == Refuse(0x6900))
            && (a.p2 == 0x00 && known && |a.body| != n ==> PickTable(k, a) == Refuse(0x6984))
  {
  }

  /** The card behind a READ BUFFER: a passthrough applet without both files has fetched them. */
  function Read(c: CardState, i: nat, env: Env): CardState
    requires i < |c.applets|
  {
    var a := c.applets[i];
    if a.kind.Passthrough? && (a.tagFile.None? || a.valFile.None?) then Transfers.Fetched(c, i, env.stored) else c
  }

  /** READ BUFFER that does not name one of the two files with a size, or starts behind its end. */
  lemma ReadRefused(c: CardState, raw: seq<byte>, body: seq<byte>, env: Env, i: nat)
    requires To(c, raw, i) && Carries(raw, body) && IsContainer(c.applets[i].kind) && raw[1] == 0x52
    ensures var o, d := Xfr(c, raw, env), Read(Dropped(c, raw), i, env);
            if |body| != 2 || (body[0] != 0x01 && body[0] != 0x02) then Bare(o, 0x69, 0x84, d)
            else
              var file := if body[0] == 0x01 then d.applets[i].tagFile else d.applets[i].valFile;
              Word(raw[2], raw[3]) > (if file.Some? then |file.value| else 0) ==> Bare(o, 0x6a, 0x86, d)
  {
    hide Xfr, Decode, VmProcess, Common, FetchedFiles;
    Routed(c, raw, env);
  }

  // ---- Signing ----

  /** The card whose applet `i` holds `sign` in its buffer. */
  function WithSign(c: CardState, i: nat, sign: seq<byte>): (d: CardState)
    requires i < |c.applets| && c.applets[i].kind.Pki?
    ensures |d.applets| == |c.applets| && d.applets[i].kind == Pki(sign, c.applets[i].kind.key)
  {
    c.(applets := c.applets[i := c.applets[i].(kind := Pki(sign, c.applets[i].kind.key))])
  }

  /** SIGN/DECRYPT, for every P1 and P2: 9000 for a piece that is kept, 6A86 with the buffer untouched for a wrong P2
    * and with the buffer lost for a wrong P1; only the final command uses the key, and it empties the buffer. */
  lemma SignAnswers(c: CardState, raw: seq<byte>, body: seq<byte>, env: Env, i: nat)
    requires To(c, raw, i) && Carries(raw, body) && c.applets[i].kind.Pki? && raw[1] == 0x42
    ensures var o, d, sign := Xfr(c, raw, env), c.(pending := None), c.applets[i].kind.sign;
            && (raw[3] != 0x00 ==> Bare(o, 0x6a, 0x86, d))
            && (raw[3] == 0x00 && raw[2] == 0x80 ==> Bare(o, 0x90, 0x00, WithSign(d, i, sign + body)))
            && (raw[3] == 0x00 && raw[2] != 0x80 && raw[2] != 0x00 ==> Bare(o, 0x6a, 0x86, WithSign(d, i, [])))
            && (raw[3] == 0x00 && raw[2] == 0x00 ==>
                  && o.signed == Some((i, sign + body)) && o.card.(pending := None) == WithSign(d, i, [])
                  && (env.rsaStatus != 0x9000 ==>
                        o.card == WithSign(d, i, []) && o.response == Some(MakeResponse(env.rsaStatus))))
  {
    hide Xfr, Decode, VmProcess, CommonRead;
    Routed(c, raw, env);
  }

  /** One piece of a chain. */
  function PieceCommand(cla: byte, piece: seq<byte>, extended: bool): seq<byte>
    requires |piece| <= if extended then 65535 else 255
  {
    [cla, 0x42, 0x80, 0x00] + FormFor(piece, 0, extended).Tail()
  }

  predicate PiecesOk(pieces: seq<seq<byte>>, extended: bool) {
    forall k :: 0 <= k < |pieces| ==> |pieces[k]| <= if extended then 65535 else 255
  }

  function Concat(pieces: seq<seq<byte>>): seq<byte> {
    if pieces == [] then [] else pieces[0] + Concat(pieces[1..])
  }

  /** Send a row of pieces: the card behind them, and the answers. */
  function SendPieces(c: CardState, cla: byte, pieces: seq<seq<byte>>, extended: bool, env: Env)
    : (r: (CardState, seq<Response>))
    requires CardOk(c) && PiecesOk(pieces, extended)
    ensures CardOk(r.0) && |r.1| == |pieces|
    decreases pieces
  {
    hide CardOk, Xfr;
    if pieces == [] then (c, [])
    else
      XfrSound(c, PieceCommand(cla, pieces[0], extended), env);
      var o := Xfr(c, PieceCommand(cla, pieces[0], extended), env);
      var (d, rest) := SendPieces(o.card, cla, pieces[1..], extended, env);
      (d, [o.response.value] + rest)
  }

  lemma PieceCarries(cla: byte, piece: seq<byte>, extended: bool)
    requires |piece| <= if extended then 65535 else 255
    ensures var raw := PieceCommand(cla, piece, extended);
            Carries(raw, piece) && raw[0] == cla && raw[1] == 0x42 && raw[2] == 0x80 && raw[3] == 0x00
  {
    hide Decode;
    DecodeCommand(cla, 0x42, 0x80, 0x00, FormFor(piece, 0, extended));
  }

  lemma PieceKept(c: CardState, cla: byte, i: nat, piece: seq<byte>, extended: bool, env: Env)
    requires CardOk(c) && c.current[ChannelOf(cla)] == Some(i) && c.applets[i].kind.Pki?
    requires |piece| <= if extended then 65535 else 255
    ensures var o := Xfr(c, PieceCommand(cla, piece, extended), env);
            && o.response == Some(Response([], 0x90, 0x00)) && CardOk(o.card)
            && o.card == WithSign(c.(pending := None), i, c.applets[i].kind.sign + piece)
  {
    hide Xfr, Decode, Dropped;
    PieceCarries(cla, piece, extended);
    var raw := PieceCommand(cla, piece, extended);
    SignAnswers(c, raw, piece, env, i);
    XfrSound(c, raw, env);
  }

  /** A whole row of chained pieces, of any number and sizes, on any channel: each is answered 9000, and what the
    * applet's buffer held before is followed by all of them. */
  lemma {:induction false} PiecesKept(c: CardState, cla: byte, i: nat, pieces: seq<seq<byte>>, extended: bool, env: Env)
    requires CardOk(c) && c.current[ChannelOf(cla)] == Some(i) && c.applets[i].kind.Pki? && PiecesOk(pieces, extended)
    requires pieces != []
    ensures var (d, answers) := SendPieces(c, cla, pieces, extended, env);
            && (forall k :: 0 <= k < |answers| ==> answers[k] == Response([], 0x90, 0x00))
            && d == WithSign(c.(pending := None), i, c.applets[i].kind.sign + Concat(pieces))
    decreases pieces
  {
    hide Xfr, PieceCommand;
    var o := Xfr(c, PieceCommand(cla, pieces[0], extended), env);
    PieceKept(c, cla, i, pieces[0], extended, env);
    if |pieces| == 1 {
      assert pieces[1..] == [] && pieces[0] + [] == pieces[0];
    } else {
      PiecesKept(o.card, cla, i, pieces[1..], extended, env);
      Assoc(c.applets[i].kind.sign, pieces[0], Concat(pieces[1..]));
    }
  }

  // ---- GET DATA ----

  /** GET DATA to the GP or MSFT applet: P1 and P2 name the tag, most significant byte first; a known tag gives its
    * data, at once or announced, and to the MSFT applet it marks the host as Windows. */
  lemma DataIsGiven(c: CardState, raw: seq<byte>, env: Env, i: nat)
    requires To(c, raw, i) && Decode(raw).Ok? && c.applets[i].kind.DataObjects? && raw[1] == 0xca
    ensures var o, d, k := Xfr(c, raw, env), c.(pending := None), c.applets[i].kind;
            var tag := Word(raw[2], raw[3]);
            && (tag !in k.answers ==> Bare(o, 0x6a, 0x88, d))
            && (tag in k.answers ==>
                  o == SendBytes(d.(windows := c.windows || k.windows), k.answers[tag], Decode(raw).apdu.le, 0x90,
                                 0x00))
  {
    hide Xfr, Decode, VmProcess;
    Routed(c, raw, env);
  }

  /** A command that asks a Windows applet for data it has. */
  predicate ShowsWindows(c: CardState, raw: seq<byte>) {
    && CardOk(c) && |raw| >= 4 && Decode(raw).Ok? && raw[1] == 0xca
    && match c.current[ChannelOf(raw[0])]
       case None => false
       case Some(i) => var k := c.applets[i].kind; k.DataObjects? && k.windows && Word(raw[2], raw[3]) in k.answers
  }

  /** The mark is set by such a command and by nothing else, and never taken back. */
  lemma WindowsStep(c: CardState, raw: seq<byte>, env: Env)
    requires CardOk(c)
    ensures Xfr(c, raw, env).card.windows <==> c.windows || ShowsWindows(c, raw)
  {
    if Decode(raw).Ok? {
      Routed(c, raw, env);
      var d, a := Dropped(c, raw), Decode(raw).apdu;
      WindowsOfApplet(d, a, env);
      WindowsOfCard(d, a, env);
    }
    hide AppletProcess, VmProcess;
  }

  lemma WindowsOfApplet(c: CardState, a: Apdu, env: Env)
    requires CardOk(c) && a.channel < MAX_CHANNEL
    ensures AppletProcess(c, a, env).card.windows <==>
            c.windows || (a.ins == 0xca && c.current[a.channel].Some?
                          && var k := c.applets[c.current[a.channel].value].kind;
                             k.DataObjects? && k.windows && Word(a.p1, a.p2) in k.answers)
  {
    hide PropertiesArm, GetAcr;
    match c.current[a.channel]
    case None =>
    case Some(i) =>
      match c.applets[i].kind {
        case Aca(_, _) => WindowsOfTables(c, c.applets[i].kind, a); WindowsOfProperties(c, c.applets[i], a);
        case DataObjects(_, _) =>
        case Passthrough(_) =>
          ReplaceOk(c, i, FetchedFiles(c.applets[i], env.stored));
          WindowsOfProperties(c, c.applets[i], a);
        case _ => WindowsOfProperties(c, c.applets[i], a);
      }
  }

  lemma WindowsOfProperties(c: CardState, applet: Applet, a: Apdu)
    requires AppletOk(applet)
    ensures PropertiesArm(c, applet, a).card.windows == c.windows
  {
  }

  lemma WindowsOfTables(c: CardState, k: Kind, a: Apdu)
    requires CardOk(c) && k.Aca? && k.pki <= 10 && k.tables.Ok()
    ensures GetAcr(c, k, a).card.windows == c.windows
  {
    hide PickTable;
  }

  lemma WindowsOfCard(c: CardState, a: Apdu, env: Env)
    requires CardOk(c) && a.channel < MAX_CHANNEL
    ensures VmProcess(c, a, env).card.windows == c.windows
  {
    hide FindApplet, Fci;
  }
}
