/** What every step of the card keeps, and that every step answers. */
module CardSteps {
  import opened Bytes
  import opened SimpleTlv
  import opened Apdus
  import opened Card
  import A = Acr

  /** Everything about an applet that no command changes. */
  predicate SameIdentity(a: Applet, b: Applet) {
    && a.aid == b.aid && a.properties == b.properties && a.shortLen == b.shortLen && a.coids == b.coids
    && (a.kind.Passthrough? || (a.tagFile == b.tagFile && a.valFile == b.valFile))
    && match a.kind
       case Pki(_, key) => b.kind.Pki? && b.kind.key == key
       case _ => b.kind == a.kind
  }

  predicate SameApplets(c: CardState, d: CardState) {
    |c.applets| == |d.applets| && forall i :: 0 <= i < |c.applets| ==> SameIdentity(c.applets[i], d.applets[i])
  }

  /** The promise of every handler: the card stays valid, and the command is answered or passed on untouched. */
  ghost predicate Sound(c: CardState, o: Outcome) {
    && CardOk(o.card) && SameApplets(c, o.card)
    && match o.status
       case Done => o.response.Some? && o.response.value.Response?
       case Next => o.card == c && o.response.None? && o.signed.None?
       case _ => false
  }

  ghost predicate Answered(c: CardState, o: Outcome) {
    Sound(c, o) && o.status == Done
  }

  lemma SendSound(c: CardState, d: CardState, data: seq<byte>, le: nat, sw1: byte, sw2: byte)
    requires CardOk(d) && SameApplets(c, d)
    ensures Answered(c, SendBytes(d, data, le, sw1, sw2)) && SendBytes(d, data, le, sw1, sw2).signed.None?
    ensures SendBytes(d, data, le, sw1, sw2).card.applets == d.applets
  {
  }

  lemma PropertiesSound(c: CardState, props: seq<Member>, tags: seq<byte>, le: nat)
    requires CardOk(c) && Encodable(props, Both)
    ensures Answered(c, GetProperties(c, props, tags, le))
    ensures GetProperties(c, props, tags, le).card.applets == c.applets
    ensures GetProperties(c, props, tags, le).signed.None?
  {
    var list := if tags == [] then Some(props) else SelectTags(props, tags);
    if list.Some? {
      SendSound(c, c, Encode(list.value, Both), le, 0x90, 0x00);
    }
  }

  lemma CommonSound(c: CardState, i: nat, a: Apdu)
    requires CardOk(c) && i < |c.applets|
    ensures Sound(c, Common(c, i, a)) && Common(c, i, a).card.applets == c.applets
    ensures a.ins == 0xc0 || a.ins == 0x20 || (a.ins == 0xa4 && a.p1 != 0x02) <==> Common(c, i, a).status == Next
    ensures Common(c, i, a).signed.None?
  {
    if a.ins == 0x56 {
      PropertiesArmSound(c, c.applets[i], a);
    }
  }

  lemma PropertiesArmSound(c: CardState, applet: Applet, a: Apdu)
    requires CardOk(c) && AppletOk(applet)
    ensures Answered(c, PropertiesArm(c, applet, a)) && PropertiesArm(c, applet, a).card.applets == c.applets
    ensures PropertiesArm(c, applet, a).signed.None?
  {
    PrefixEncodable(applet.properties, applet.shortLen);
    if a.p1 == 0x40 {
      PropertiesSound(c, applet.properties, [], a.le);
    } else {
      PropertiesSound(c, applet.properties[..applet.shortLen], if a.p1 == 0x01 then [] else a.body, a.le);
    }
  }

  lemma ReadSound(c: CardState, i: nat, a: Apdu)
    requires CardOk(c) && i < |c.applets|
    ensures Sound(c, CommonRead(c, i, a)) && CommonRead(c, i, a).card.applets == c.applets
    ensures a.ins == 0xc0 || a.ins == 0x20 || (a.ins == 0xa4 && a.p1 != 0x02) <==> CommonRead(c, i, a).status == Next
    ensures CommonRead(c, i, a).signed.None?
  {
    CommonSound(c, i, a);
    if a.ins == 0x52 && |a.body| == 2 {
      var file := FileBytes(if a.body[0] == 0x02 then c.applets[i].valFile else c.applets[i].tagFile);
      var offset := FromBe16(a.p1, a.p2);
      if offset <= |file| {
        SendSound(c, c, file[offset..offset + Min(a.body[1], |file| - offset)], a.le, 0x90, 0x00);
      }
    }
  }

  /** Replacing one applet's private state leaves a valid card with the same applets. */
  lemma ReplaceOk(c: CardState, i: nat, b: Applet)
    requires CardOk(c) && i < |c.applets| && SameIdentity(c.applets[i], b)
    ensures CardOk(c.(applets := c.applets[i := b])) && SameApplets(c, c.(applets := c.applets[i := b]))
  {
  }

  lemma PkiSound(c: CardState, i: nat, a: Apdu, env: Env)
    requires CardOk(c) && i < |c.applets| && c.applets[i].kind.Pki?
    ensures Sound(c, PkiProcess(c, i, a, env))
    ensures a.ins == 0xc0 || a.ins == 0x20 || (a.ins == 0xa4 && a.p1 != 0x02)
       <==> PkiProcess(c, i, a, env).status == Next
  {
    ReadSound(c, i, a);
    var k := c.applets[i].kind;
    var data := k.sign + a.body;
    var cleared := SetKind(c, i, k.(sign := []));
    ReplaceOk(c, i, c.applets[i].(kind := k.(sign := [])));
    ReplaceOk(c, i, c.applets[i].(kind := k.(sign := data)));
    SendSound(c, cleared, RsaResult(env, data), a.le, 0x90, 0x00);
  }

  lemma TableSound(c: CardState, table: Option<seq<Member>>, le: nat, notFound: Status)
    requires CardOk(c)
    ensures Answered(c, SendTable(c, table, le, notFound))
    ensures SendTable(c, table, le, notFound).card.applets == c.applets
    ensures SendTable(c, table, le, notFound).signed.None?
  {
  }

  lemma AcaSound(c: CardState, i: nat, a: Apdu)
    requires CardOk(c) && i < |c.applets| && c.applets[i].kind.Aca?
    ensures Sound(c, AcaProcess(c, i, a)) && AcaProcess(c, i, a).card.applets == c.applets
    ensures a.ins == 0xc0 || a.ins == 0x20 || (a.ins == 0xa4 && a.p1 != 0x02) <==> AcaProcess(c, i, a).status == Next
    ensures AcaProcess(c, i, a).signed.None?
  {
    CommonSound(c, i, a);
    if a.ins == 0x4c {
      AcrSound(c, c.applets[i].kind, a);
    }
  }

  lemma AcrSound(c: CardState, k: Kind, a: Apdu)
    requires CardOk(c) && k.Aca? && k.pki <= A.PKI_SLOTS && k.tables.Ok()
    ensures Answered(c, GetAcr(c, k, a)) && GetAcr(c, k, a).card.applets == c.applets && GetAcr(c, k, a).signed.None?
  {
    match PickTable(k, a)
    case Refuse(_) =>
    case Table(records, notFound) => TableSound(c, records, a.le, notFound);
    case Extended(data) => SendSound(c, c, data, a.le, 0x90, 0x00);
  }

  lemma PassthroughSound(c: CardState, i: nat, a: Apdu, env: Env)
    requires CardOk(c) && i < |c.applets| && c.applets[i].kind.Passthrough?
    ensures Sound(c, PassthroughProcess(c, i, a, env))
    ensures a.ins == 0xc0 || a.ins == 0x20 || (a.ins == 0xa4 && a.p1 != 0x02)
       <==> PassthroughProcess(c, i, a, env).status == Next
    ensures PassthroughProcess(c, i, a, env).signed.None?
    ensures forall j :: 0 <= j < |c.applets| ==>
              PassthroughProcess(c, i, a, env).card.applets[j].kind == c.applets[j].kind
  {
    var b := FetchedFiles(c.applets[i], env.stored);
    var d := c.(applets := c.applets[i := b]);
    ReplaceOk(c, i, b);
    ReadSound(c, i, a);
    ReadSound(d, i, a);
  }

  lemma DataObjectsSound(c: CardState, i: nat, a: Apdu)
    requires CardOk(c) && i < |c.applets| && c.applets[i].kind.DataObjects?
    ensures Sound(c, DataObjectsProcess(c, i, a)) && DataObjectsProcess(c, i, a).card.applets == c.applets
    ensures a.ins != 0xca <==> DataObjectsProcess(c, i, a).status == Next
    ensures DataObjectsProcess(c, i, a).signed.None?
  {
  }

  /** The selected applet answers or passes on, and always passes on GET RESPONSE, VERIFY and SELECT by AID. */
  lemma AppletSound(c: CardState, a: Apdu, env: Env)
    requires CardOk(c) && a.channel < MAX_CHANNEL
    ensures Sound(c, AppletProcess(c, a, env))
    ensures a.ins == 0xc0 || a.ins == 0x20 || (a.ins == 0xa4 && a.p1 != 0x02)
        ==> AppletProcess(c, a, env).status == Next
  {
    match c.current[a.channel]
    case None =>
    case Some(i) =>
      match c.applets[i].kind {
        case Pki(_, _) => PkiSound(c, i, a, env);
        case Aca(_, _) => AcaSound(c, i, a);
        case Plain => ReadSound(c, i, a);
        case Passthrough(_) => PassthroughSound(c, i, a, env);
        case DataObjects(_, _) => DataObjectsSound(c, i, a);
      }
  }

  lemma SelectOk(c: CardState, channel: nat, found: Option<nat>)
    requires CardOk(c) && channel < 2 && (found.Some? ==> found.value < |c.applets|)
    ensures CardOk(SelectApplet(c, channel, found)) && SameApplets(c, SelectApplet(c, channel, found))
  {
    var d := c.(current := c.current[channel := found]);
    assert CardOk(d);
    if found.Some? {
      ReplaceOk(d, found.value, ResetApplet(d.applets[found.value]));
    }
  }

  /** The FCI template always has room for the AID, because the AID is one of the card's own. */
  lemma VmSelectSound(c: CardState, a: Apdu)
    requires CardOk(c) && a.channel < 2
    ensures Answered(c, VmSelect(c, a)) && VmSelect(c, a).signed.None?
  {
    var found := FindApplet(c.applets, a.body);
    var d := SelectApplet(c, a.channel, found);
    SelectOk(c, a.channel, found);
    if found.Some? {
      assert AppletOk(c.applets[found.value]) && |a.body| <= 16;
      SendSound(c, d, GP_RESPONSE, a.le, 0x90, 0x00);
      SendSound(c, d, Fci(a.body), a.le, 0x90, 0x00);
    }
  }

  lemma GetResponseSound(c: CardState, a: Apdu)
    requires CardOk(c)
    ensures Answered(c, VmGetResponse(c, a)) && VmGetResponse(c, a).card.applets == c.applets
    ensures VmGetResponse(c, a).signed.None?
  {
  }

  lemma VmSound(c: CardState, a: Apdu, env: Env)
    requires CardOk(c) && a.channel < MAX_CHANNEL && (a.secureMessaging == 0 ==> a.channel < 2)
    ensures Answered(c, VmProcess(c, a, env)) && VmProcess(c, a, env).signed.None?
  {
    hide VmSelect, VmGetResponse;
    if a.genType == Iso && a.secureMessaging == 0 {
      VmSelectSound(c, a);
      GetResponseSound(c, a);
    }
  }

  lemma DecodedChannel(raw: seq<byte>)
    requires Decode(raw).Ok?
    ensures var a := Decode(raw).apdu;
            a.channel < MAX_CHANNEL && (a.secureMessaging == 0 ==> a.channel < 2) && a.classType != PTS_TYPE
  {
    UpperChannelsNeedSecureMessaging(raw[0]);
  }

  /** One command keeps the card valid and is answered with at least a status word, whatever its bytes: no
    * assertion fails, no response is missing, the PTS path is never taken. */
  lemma XfrSound(c: CardState, raw: seq<byte>, env: Env)
    requires CardOk(c)
    ensures var o := Xfr(c, raw, env);
            Answered(c, o) && |o.response.value.Bytes()| >= 2
  {
    match Decode(raw)
    case Err(_) =>
    case Ok(a) =>
      DecodedChannel(raw);
      var d := DropPending(c, a);
      AppletSound(d, a, env);
      VmSound(d, a, env);
  }

  /** The bytes that go back to the reader. */
  function Answer(c: CardState, raw: seq<byte>, env: Env): (r: seq<byte>)
    requires CardOk(c)
    ensures |r| >= 2
  {
    XfrSound(c, raw, env);
    Xfr(c, raw, env).response.value.Bytes()
  }

  /** Only GET RESPONSE can see what an earlier command left pending. */
  lemma PendingIsDropped(c: CardState, raw: seq<byte>, env: Env)
    requires CardOk(c) && Decode(raw).Ok? && Decode(raw).apdu.ins != 0xc0
    ensures Xfr(c, raw, env) == Xfr(c.(pending := None), raw, env)
  {
    DecodedChannel(raw);
  }

  ghost predicate WithinLe(o: Outcome, le: nat) {
    o.response.Some? && o.response.value.Response? && |o.response.value.data| <= le
  }

  lemma GetResponseWithinLe(c: CardState, a: Apdu, env: Env)
    requires CardOk(c) && a.channel < 2 && a.ins == 0xc0
    ensures AppletProcess(c, a, env).status == Next
    ensures WithinLe(VmProcess(c, a, env), a.le)
  {
    AppletSound(c, a, env);
  }

  lemma OthersWithinLe(c: CardState, a: Apdu, env: Env)
    requires CardOk(c) && a.channel < MAX_CHANNEL && a.ins != 0xc0 && c.pending.None?
    requires a.secureMessaging == 0 ==> a.channel < 2
    ensures var o := AppletProcess(c, a, env);
            if o.status != Next then WithinLe(o, a.le) else WithinLe(VmProcess(c, a, env), a.le)
  {
    AppletSound(c, a, env);
    AppletAnnounces(c, a, env);
    if AppletProcess(c, a, env).status == Next {
      VmSound(c, a, env);
      VmAnnounces(c, a, env);
    }
  }

  lemma ResponseWithinLe(c: CardState, raw: seq<byte>, env: Env)
    requires CardOk(c) && Decode(raw).Ok?
    ensures WithinLe(Xfr(c, raw, env), Decode(raw).apdu.le)
  {
    hide AppletProcess, VmProcess;
    DecodedChannel(raw);
    var a := Decode(raw).apdu;
    var d := DropPending(c, a);
    if a.ins != 0xc0 {
      OthersWithinLe(d, a, env);
    } else if a.channel < 2 {
      GetResponseWithinLe(d, a, env);
    } else {
      SecureWithinLe(d, a, env);
    }
  }

  lemma SecureWithinLe(c: CardState, a: Apdu, env: Env)
    requires CardOk(c) && 2 <= a.channel < MAX_CHANNEL && a.secureMessaging != 0
    ensures AppletProcess(c, a, env).status == Next && WithinLe(VmProcess(c, a, env), a.le)
  {
    hide PkiProcess, AcaProcess, CommonRead, PassthroughProcess, DataObjectsProcess, VmSelect, VmVerify, VmGetResponse;
    assert c.current[a.channel].None?;
  }

  /** No answer is longer than Le and a status word. */
  lemma AnswerWithinLe(c: CardState, raw: seq<byte>, env: Env)
    requires CardOk(c)
    ensures match Decode(raw)
            case Err(_) => |Answer(c, raw, env)| == 2
            case Ok(a) => |Answer(c, raw, env)| <= a.le + 2
  {
    if Decode(raw).Ok? {
      ResponseWithinLe(c, raw, env);
      hide Xfr;
    }
  }

  /** A pending response that is there after any other command was made by that command, and announced. */
  lemma PendingIsAnnounced(c: CardState, raw: seq<byte>, env: Env)
    requires CardOk(c) && Decode(raw).Ok? && Decode(raw).apdu.ins != 0xc0
    ensures var o := Xfr(c, raw, env);
            o.card.pending.Some? ==>
              var p := o.card.pending.value;
              && p.current == 0 && p.len > Decode(raw).apdu.le
              && o.response == Some(Response([], 0x61, if p.len > 255 then 0 else p.len))
  {
    DecodedChannel(raw);
    var a := Decode(raw).apdu;
    var d := DropPending(c, a);
    AppletSound(d, a, env);
    AppletAnnounces(d, a, env);
    if AppletProcess(d, a, env).status == Next {
      VmAnnounces(d, a, env);
    }
  }

  /** A pending response is announced, and an answer never exceeds Le. */
  ghost predicate Announces(o: Outcome, le: nat) {
    && (o.card.pending.Some? ==>
          var p := o.card.pending.value;
          p.current == 0 && p.len > le && o.response == Some(Response([], 0x61, if p.len > 255 then 0 else p.len)))
    && (o.response.Some? && o.response.value.Response? ==> |o.response.value.data| <= le)
  }

  lemma AppletAnnounces(c: CardState, a: Apdu, env: Env)
    requires CardOk(c) && a.channel < MAX_CHANNEL && c.pending.None?
    ensures Announces(AppletProcess(c, a, env), a.le)
  {
    match c.current[a.channel]
    case None =>
    case Some(i) =>
      match c.applets[i].kind {
        case Pki(_, _) => ReadAnnounces(c, i, a);
        case Aca(_, _) => CommonAnnounces(c, i, a); AcrAnnounces(c, c.applets[i].kind, a);
        case Plain => ReadAnnounces(c, i, a);
        case Passthrough(_) =>
          ReplaceOk(c, i, FetchedFiles(c.applets[i], env.stored));
          ReadAnnounces(c, i, a);
          ReadAnnounces(c.(applets := c.applets[i := FetchedFiles(c.applets[i], env.stored)]), i, a);
        case DataObjects(_, _) =>
      }
  }

  lemma CommonAnnounces(c: CardState, i: nat, a: Apdu)
    requires CardOk(c) && i < |c.applets| && c.pending.None?
    ensures Announces(Common(c, i, a), a.le)
  {
    hide PropertiesArm;
    PropertiesAnnounce(c, c.applets[i], a);
  }

  lemma PropertiesAnnounce(c: CardState, applet: Applet, a: Apdu)
    requires AppletOk(applet) && c.pending.None?
    ensures Announces(PropertiesArm(c, applet, a), a.le)
  {
    hide Encodable, SelectTags;
    PrefixEncodable(applet.properties, applet.shortLen);
  }

  lemma ReadAnnounces(c: CardState, i: nat, a: Apdu)
    requires CardOk(c) && i < |c.applets| && c.pending.None?
    ensures Announces(CommonRead(c, i, a), a.le)
  {
    CommonAnnounces(c, i, a);
  }

  lemma AcrAnnounces(c: CardState, k: Kind, a: Apdu)
    requires CardOk(c) && c.pending.None? && k.Aca? && k.pki <= A.PKI_SLOTS && k.tables.Ok()
    ensures Announces(GetAcr(c, k, a), a.le)
  {
    hide PickTable;
  }

  lemma VmAnnounces(c: CardState, a: Apdu, env: Env)
    requires CardOk(c) && a.channel < MAX_CHANNEL && c.pending.None?
    ensures Announces(VmProcess(c, a, env), a.le)
  {
  }
}
