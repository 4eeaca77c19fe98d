/** What a host learns from the card's answers, from the raw bytes of a command to the meaning of the data that
  * comes back: selecting, properties, PIN tries, signatures and access control tables. */
module Answers {
  import opened Bytes
  import opened SimpleTlv
  import opened Apdus
  import opened Card
  import opened CardSteps
  import opened Transfers
  import A = Acr
  import T = AcaTables
  import X = AcaExtended

  predicate LengthsOk(body: seq<byte>, le: nat, extended: bool) {
    le <= 65536 && |body| <= 65535 && (!extended ==> le <= 256 && |body| <= 255)
  }

  /** A command other than GET RESPONSE starts without a pending response, with the applet of its channel. */
  lemma Handled(c: CardState, cla: byte, ins: byte, p1: byte, p2: byte, f: Form, env: Env)
    requires CardOk(c) && PlainClass(cla) && f.InRange() && ins != 0xc0
    ensures var raw := Command(cla, ins, p1, p2, f);
            var d := c.(pending := None);
            && Decode(raw).Ok? && CardOk(d)
            && var a := Decode(raw).apdu;
               && (a.cla, a.ins, a.p1, a.p2, a.le, a.body) == (cla, ins, p1, p2, f.Le(), f.Body())
               && a.channel == Channel(cla) < 2 && a.genType == Iso && a.secureMessaging == 0
               && Xfr(c, raw, env) == var o := AppletProcess(d, a, env);
                                      if o.status != Next then o else VmProcess(d, a, env)
  {
    DecodeCommand(cla, ins, p1, p2, f);
    DecodedChannel(Command(cla, ins, p1, p2, f));
  }

  // ---- Selecting ----

  function SelectCommand(cla: byte, aid: seq<byte>, le: nat, extended: bool): seq<byte>
    requires LengthsOk(aid, le, extended)
  {
    Command(cla, 0xa4, 0x04, 0x00, FormFor(aid, le, extended))
  }

  /** Reading an FCI template: the AID inside, if all its lengths are right. */
  function AidIn(fci: seq<byte>): Option<seq<byte>> {
    if |fci| < 4 || fci[0] != 0x6f || fci[1] != |fci| - 2 || fci[2] != 0x84 || |fci| != AfterAid(fci[3]) + 2 then None
    else if fci[AfterAid(fci[3])..] != [0xa5, 0x00] then None
    else Some(fci[4..AfterAid(fci[3])])
  }

  function AfterAid(n: nat): nat {
    4 + n
  }

  lemma FciShowsAid(aid: seq<byte>)
    requires |aid| <= 16
    ensures AidIn(Fci(aid)) == Some(aid)
  {
    var fci := Fci(aid);
    MiddleOf([0x6f, |aid| + 4, 0x84, |aid|], aid, [0xa5, 0x00]);
    assert AfterAid(fci[3]) == 4 + |aid|;
  }

  /** The answer to a selection that found something. */
  function Template(applets: seq<Applet>, aid: seq<byte>): seq<byte>
    requires |aid| <= 16
  {
    if FindApplet(applets, aid) == FindApplet(applets, GP_AID) then GP_RESPONSE else Fci(aid)
  }

  lemma SelectReached(c: CardState, cla: byte, aid: seq<byte>, le: nat, extended: bool, env: Env)
    requires CardOk(c) && PlainClass(cla) && LengthsOk(aid, le, extended)
    ensures var raw := SelectCommand(cla, aid, le, extended);
            && Decode(raw).Ok?
            && var a := Decode(raw).apdu;
               && a.p1 == 0x04 && a.le == le && a.body == aid && a.channel == Channel(cla) < 2
               && Xfr(c, raw, env) == VmSelect(c.(pending := None), a)
  {
    Handled(c, cla, 0xa4, 0x04, 0x00, FormFor(aid, le, extended), env);
    AppletSound(c.(pending := None), Decode(SelectCommand(cla, aid, le, extended)).apdu, env);
  }

  lemma VmSelectIs(c: CardState, a: Apdu)
    requires CardOk(c) && a.channel < 2 && a.p1 == 0x04
    ensures var found := FindApplet(c.applets, a.body);
            var d := SelectApplet(c, a.channel, found);
            && CardOk(d)
            && (found.None? ==> VmSelect(c, a) == Reply(d, 0x6a82))
            && (found.Some? ==> |a.body| <= 16 && VmSelect(c, a) == Send(d, Template(c.applets, a.body), a.le))
  {
    var found := FindApplet(c.applets, a.body);
    SelectOk(c, a.channel, found);
    if found.Some? {
      assert AppletOk(c.applets[found.value]) && |a.body| <= 16;
    }
  }

  /** SELECT by AID: whatever was selected, the applet added last with this AID is selected on the command's
    * channel and reset, the other channel and all other applets stay as they are, and the host gets a template
    * that names the AID, or the card manager's own. */
  lemma SelectArrives(c: CardState, cla: byte, aid: seq<byte>, le: nat, extended: bool, l: seq<Fetch>, env: Env)
    requires CardOk(c) && PlainClass(cla) && LengthsOk(aid, le, extended) && FetchesOk(l) && Total(l) >= 27
    requires FindApplet(c.applets, aid).Some?
    ensures var (d, data) := Ask(c, cla, SelectCommand(cla, aid, le, extended), l, env);
            var i := FindApplet(c.applets, aid).value;
            && (if Some(i) == FindApplet(c.applets, GP_AID) then data == GP_RESPONSE else AidIn(data) == Some(aid))
            && d.current == c.current[Channel(cla) := Some(i)] && d.pending.None? && d.windows == c.windows
            && d.applets == c.applets[i := ResetApplet(c.applets[i])]
            && d.applets[i] == match c.applets[i].kind
                 case Pki(_, key) => c.applets[i].(kind := Pki([], key))
                 case Passthrough(_) => c.applets[i].(tagFile := None, valFile := None)
                 case _ => c.applets[i]
  {
    hide Xfr, VmSelect;
    SelectReached(c, cla, aid, le, extended, env);
    var raw := SelectCommand(cla, aid, le, extended);
    VmSelectIs(c.(pending := None), Decode(raw).apdu);
    FciShowsAid(aid);
    var d := SelectApplet(c.(pending := None), Channel(cla), FindApplet(c.applets, aid));
    AskGets(c, cla, raw, l, env, d, Template(c.applets, aid), le);
  }

  /** An AID the card does not have deselects the channel. */
  lemma SelectUnknown(c: CardState, cla: byte, aid: seq<byte>, le: nat, extended: bool, env: Env)
    requires CardOk(c) && PlainClass(cla) && LengthsOk(aid, le, extended)
    requires forall i :: 0 <= i < |c.applets| ==> c.applets[i].aid != aid
    ensures var o := Xfr(c, SelectCommand(cla, aid, le, extended), env);
            && o.response == Some(MakeResponse(0x6a82))
            && o.card == c.(current := c.current[Channel(cla) := None], pending := None)
  {
    hide Xfr, VmSelect;
    SelectReached(c, cla, aid, le, extended, env);
    VmSelectIs(c.(pending := None), Decode(SelectCommand(cla, aid, le, extended)).apdu);
  }

  // ---- PIN tries ----

  /** What a host reads out of 63Cx. */
  function TriesLeft(r: Response): Option<nat> {
    if r.Response? && r.sw1 == 0x63 && r.sw2 / 0x10 == 0xc then Some(r.sw2 % 0x10) else None
  }

  /** The number of tries the token reports; where it reports none, three for a host that has shown itself to be
    * Windows. */
  function KnownTries(c: CardState, env: Env): Option<nat> {
    if env.loginCount >= 0 then Some(env.loginCount)
    else if env.loginCount == -1 && c.windows then Some(3)
    else None
  }

  /** VERIFY, whatever is selected: with a PIN the card answers how the login went; without one it says 9000 exactly
    * when logged in, and otherwise the tries left, as far as they are known and one digit can show them. */
  lemma VerifyReports(c: CardState, cla: byte, body: seq<byte>, le: nat, extended: bool, env: Env)
    requires CardOk(c) && PlainClass(cla) && LengthsOk(body, le, extended)
    ensures var o := Xfr(c, Command(cla, 0x20, 0x00, 0x00, FormFor(body, le, extended)), env);
            && o.card == c.(pending := None) && o.response.Some?
            && (body != [] ==> o.response.value == MakeResponse(env.loginStatus))
            && (body == [] ==>
                  && (o.response.value == MakeResponse(SUCCESS) <==> env.loggedIn)
                  && (!env.loggedIn && KnownTries(c, env).None? ==> o.response.value == MakeResponse(0x6a88))
                  && TriesLeft(o.response.value) ==
                     (if env.loggedIn || KnownTries(c, env).None? then None
                      else Some(Min(KnownTries(c, env).value, 15))))
  {
    var f := FormFor(body, le, extended);
    Handled(c, cla, 0x20, 0x00, 0x00, f, env);
    var a := Decode(Command(cla, 0x20, 0x00, 0x00, f)).apdu;
    var d := c.(pending := None);
    AppletSound(d, a, env);
    VerifyMeaning(d, a, env);
  }

  lemma VerifyMeaning(c: CardState, a: Apdu, env: Env)
    requires a.p1 == 0x00 && a.p2 == 0x00
    ensures var o := VmVerify(c, a, env);
            && o.card == c && o.response.Some? && o.response.value.Response?
            && (a.body != [] ==> o.response.value == MakeResponse(env.loginStatus))
            && (a.body == [] ==>
                  && (o.response.value == MakeResponse(SUCCESS) <==> env.loggedIn)
                  && (!env.loggedIn && KnownTries(c, env).None? ==> o.response.value == MakeResponse(0x6a88))
                  && TriesLeft(o.response.value) ==
                     (if env.loggedIn || KnownTries(c, env).None? then None
                      else Some(Min(KnownTries(c, env).value, 15))))
  {
  }

  // ---- Signatures ----

  function SignCommand(cla: byte, body: seq<byte>, le: nat, extended: bool): seq<byte>
    requires LengthsOk(body, le, extended)
  {
    Command(cla, 0x42, 0x00, 0x00, FormFor(body, le, extended))
  }

  /** The final SIGN/DECRYPT: the operation gets what was chained and the body, the chain is over, and the host has the
    * whole result, sent at once or fetched, or the operation's own error status. */
  lemma SignatureArrives(c: CardState, cla: byte, i: nat, body: seq<byte>, le: nat, extended: bool, l: seq<Fetch>,
                         env: Env)
    requires CardOk(c) && PlainClass(cla) && LengthsOk(body, le, extended) && FetchesOk(l)
    requires c.current[Channel(cla)] == Some(i) && c.applets[i].kind.Pki?
    requires Total(l) >= |c.applets[i].kind.sign + body|
    ensures var raw := SignCommand(cla, body, le, extended);
            var k := c.applets[i].kind;
            var d := SetKind(c, i, k.(sign := [])).(pending := None);
            && Xfr(c, raw, env).signed == Some((i, k.sign + body))
            && (env.rsaStatus == SUCCESS ==> Ask(c, cla, raw, l, env) == (d, RsaResult(env, k.sign + body)))
            && (env.rsaStatus != SUCCESS ==>
                  Xfr(c, raw, env).response == Some(MakeResponse(env.rsaStatus)) && Xfr(c, raw, env).card == d)
  {
    var f := FormFor(body, le, extended);
    var raw := SignCommand(cla, body, le, extended);
    Handled(c, cla, 0x42, 0x00, 0x00, f, env);
    var k := c.applets[i].kind;
    var b := c.(pending := None);
    var d := SetKind(b, i, k.(sign := []));
    ReplaceOk(b, i, b.applets[i].(kind := k.(sign := [])));
    PkiSound(b, i, Decode(raw).apdu, env);
    if env.rsaStatus == SUCCESS {
      AskGets(c, cla, raw, l, env, d, RsaResult(env, k.sign + body), le);
    }
  }

  // ---- Properties ----

  /** What GET PROPERTIES with P1=01 and P1=02 works on. */
  function ShortList(a: Applet): seq<Member>
    requires AppletOk(a)
  {
    a.properties[..a.shortLen]
  }

  function PropertiesCommand(cla: byte, p1: byte, tags: seq<byte>, le: nat, extended: bool): seq<byte>
    requires LengthsOk(tags, le, extended)
  {
    Command(cla, 0x56, p1, 0x00, FormFor(tags, le, extended))
  }

  /** An applet that answers GET PROPERTIES is selected. */
  predicate Describes(c: CardState, cla: byte, i: nat) {
    CardOk(c) && PlainClass(cla) && c.current[Channel(cla)] == Some(i) && !c.applets[i].kind.DataObjects?
  }

  lemma PropertiesReached(c: CardState, cla: byte, i: nat, p1: byte, tags: seq<byte>, le: nat, extended: bool, env: Env)
    requires Describes(c, cla, i) && LengthsOk(tags, le, extended)
    requires p1 == 0x40 || (p1 == 0x01 && tags == []) || (p1 == 0x02 && tags != [])
    ensures Encodable(ShortList(c.applets[i]), Both) && Encodable(c.applets[i].properties, Both)
    ensures Xfr(c, PropertiesCommand(cla, p1, tags, le, extended), env)
         == GetProperties(c.(pending := None), if p1 == 0x40 then c.applets[i].properties else ShortList(c.applets[i]),
                          if p1 == 0x40 then [] else tags, le)
  {
    hide GetProperties, Decode, Xfr, VmProcess;
    PrefixEncodable(c.applets[i].properties, c.applets[i].shortLen);
    Handled(c, cla, 0x56, p1, 0x00, FormFor(tags, le, extended), env);
    var a := Decode(PropertiesCommand(cla, p1, tags, le, extended)).apdu;
    var d := c.(pending := None);
    assert AppletProcess(d, a, env) == PropertiesArm(d, d.applets[i], a);
    PropertiesArmSound(d, d.applets[i], a);
  }

  /** For the `j`-th tag asked for, what the host parsed is the first property with that tag. */
  predicate AreTheProperties(got: seq<Member>, props: seq<Member>, tags: seq<byte>) {
    && |got| == |tags|
    && forall j :: 0 <= j < |tags| ==>
         var m := FindTag(props, tags[j]);
         m.Some? && got[j] == Member(tags[j], Leaf(Content(m.value)))
  }

  lemma {:induction false} TopsAt(l: seq<Member>)
    requires forall k :: 0 <= k < |l| ==> !l[k].body.Skipped?
    ensures |Tops(l)| == |l|
    ensures forall k :: 0 <= k < |l| ==> Tops(l)[k] == Member(l[k].tag, Leaf(Content(l[k])))
  {
    if l != [] {
      TopsAt(l[1..]);
      assert Tops(l) == [Member(l[0].tag, Leaf(Content(l[0])))] + Tops(l[1..]);
    }
  }

  lemma ParsedProperties(props: seq<Member>, tags: seq<byte>)
    requires Encodable(props, Both) && SelectTags(props, tags).Some?
    requires forall k :: 0 <= k < |props| ==> !props[k].body.Skipped?
    ensures Encodable(SelectTags(props, tags).value, Both)
    ensures AreTheProperties(Parse(Encode(SelectTags(props, tags).value, Both)), props, tags)
  {
    var l := SelectTags(props, tags).value;
    SelectedEncodable(props, tags);
    forall j | 0 <= j < |l| ensures !l[j].body.Skipped? && l[j].tag == tags[j] {
      assert FindTag(props, tags[j]) == Some(l[j]);
    }
    TopsAt(l);
    ParseInvertsEncode(l);
  }

  /** GET PROPERTIES for a list of tags: the host parses exactly the properties asked for, in that order, provided
    * its Le is not larger than the answer and each tag exists. */
  lemma PropertiesArrive(c: CardState, cla: byte, i: nat, tags: seq<byte>, le: nat, extended: bool, l: seq<Fetch>,
                         env: Env)
    requires Describes(c, cla, i) && LengthsOk(tags, le, extended) && tags != [] && FetchesOk(l)
    requires var props := ShortList(c.applets[i]);
             && (forall k :: 0 <= k < |props| ==> !props[k].body.Skipped?)
             && SelectTags(props, tags).Some?
             && le <= |Encode(SelectTags(props, tags).value, Both)| <= Total(l)
    ensures var (d, data) := Ask(c, cla, PropertiesCommand(cla, 0x02, tags, le, extended), l, env);
            AreTheProperties(Parse(data), ShortList(c.applets[i]), tags) && d == c.(pending := None)
  {
    var props := ShortList(c.applets[i]);
    PropertiesReached(c, cla, i, 0x02, tags, le, extended, env);
    ParsedProperties(props, tags);
    var data := Encode(SelectTags(props, tags).value, Both);
    assert Parse(data) != [] ==> data != [];
    AskGets(c, cla, PropertiesCommand(cla, 0x02, tags, le, extended), l, env, c.(pending := None), data, le);
  }

  /** P1=02 is refused with 6A88 if and only if the applet has no property with one of the tags; otherwise
    * `PropertiesArrive` or `PropertiesCorrectLe` says what comes. */
  lemma MissingPropertyRefused(c: CardState, cla: byte, i: nat, tags: seq<byte>, le: nat, extended: bool, env: Env)
    requires Describes(c, cla, i) && LengthsOk(tags, le, extended) && tags != []
    ensures var o := Xfr(c, PropertiesCommand(cla, 0x02, tags, le, extended), env);
            && (o.response == Some(MakeResponse(0x6a88)) <==>
                  exists j :: 0 <= j < |tags| && HasNoTag(ShortList(c.applets[i]), tags[j]))
            && (o.response == Some(MakeResponse(0x6a88)) ==> o.card == c.(pending := None))
  {
    hide Xfr, Encode, SelectTags;
    PropertiesReached(c, cla, i, 0x02, tags, le, extended, env);
    var props := ShortList(c.applets[i]);
    MissingTag(props, tags);
    forall j | 0 <= j < |tags| ensures FindTag(props, tags[j]).None? <==> HasNoTag(props, tags[j]) {
    }
  }

  predicate HasNoTag(props: seq<Member>, tag: byte) {
    forall k :: 0 <= k < |props| ==> props[k].tag != tag
  }

  /** P1=01 gives the short list and P1=40 the whole one: the host parses the top level of every property. */
  lemma AllPropertiesArrive(c: CardState, cla: byte, i: nat, p1: byte, le: nat, extended: bool, l: seq<Fetch>, env: Env)
    requires Describes(c, cla, i) && LengthsOk([], le, extended) && FetchesOk(l) && (p1 == 0x01 || p1 == 0x40)
    requires var props := if p1 == 0x40 then c.applets[i].properties else ShortList(c.applets[i]);
             Encode(props, Both) != [] && le <= |Encode(props, Both)| <= Total(l)
    ensures var (d, data) := Ask(c, cla, PropertiesCommand(cla, p1, [], le, extended), l, env);
            && Parse(data) == Tops(if p1 == 0x40 then c.applets[i].properties else ShortList(c.applets[i]))
            && d == c.(pending := None)
  {
    var props := if p1 == 0x40 then c.applets[i].properties else ShortList(c.applets[i]);
    PropertiesReached(c, cla, i, p1, [], le, extended, env);
    ParseInvertsEncode(props);
    AskGets(c, cla, PropertiesCommand(cla, p1, [], le, extended), l, env, c.(pending := None), Encode(props, Both), le);
  }

  /** The answer to a request for properties that exist, by its Le. */
  lemma AnswerByLe(c: CardState, props: seq<Member>, tags: seq<byte>, le: nat)
    requires Encodable(props, Both) && tags != [] && SelectTags(props, tags).Some?
    ensures var data, o := Encode(SelectTags(props, tags).value, Both), GetProperties(c, props, tags, le);
            data != [] ==>
              && (le > |data| ==> o == Outcome(c, Done, Some(Response([], 0x6c, |data| % 0x100)), None))
              && (le == |data| ==> o == Outcome(c, Done, Some(Response(data, 0x90, 0x00)), None))
              && (le < |data| ==> o.card.pending == Some(Pending(data, 0, |data|))
                                  && o.response == Some(Response([], 0x61, if |data| > 255 then 0 else |data|)))
  {
  }

  /** With an Le larger than the answer the card sends nothing but tells the right one, modulo 256, and changes
    * nothing; with the right one the same command gets the whole answer at once. */
  lemma PropertiesCorrectLe(c: CardState, cla: byte, i: nat, tags: seq<byte>, le: nat, extended: bool, env: Env)
    requires Describes(c, cla, i) && LengthsOk(tags, le, extended) && tags != []
    requires SelectTags(ShortList(c.applets[i]), tags).Some?
    requires Encode(SelectTags(ShortList(c.applets[i]), tags).value, Both) != []
    ensures var data := Encode(SelectTags(ShortList(c.applets[i]), tags).value, Both);
            var o := Xfr(c, PropertiesCommand(cla, 0x02, tags, le, extended), env);
            && (o.response == Some(Response([], 0x6c, |data| % 0x100)) <==> le > |data|)
            && (le > |data| ==> o.card == c.(pending := None))
            && (le == |data| ==> o.response == Some(Response(data, 0x90, 0x00)))
  {
    PropertiesReached(c, cla, i, 0x02, tags, le, extended, env);
    AnswerByLe(c.(pending := None), ShortList(c.applets[i]), tags, le);
  }

  /** The same for P1=01 and P1=40, and for an applet with nothing to say, which answers 6F00. */
  lemma WholeListCorrectLe(c: CardState, cla: byte, i: nat, p1: byte, le: nat, extended: bool, env: Env)
    requires Describes(c, cla, i) && LengthsOk([], le, extended) && (p1 == 0x01 || p1 == 0x40)
    ensures var props := if p1 == 0x40 then c.applets[i].properties else ShortList(c.applets[i]);
            var data, o := Encode(props, Both), Xfr(c, PropertiesCommand(cla, p1, [], le, extended), env);
            && (data == [] <==> o.response == Some(Response([], 0x6f, 0x00)))
            && (data != [] ==> (o.response == Some(Response([], 0x6c, |data| % 0x100)) <==> le > |data|))
            && (data == [] || le > |data| ==> o.card == c.(pending := None))
            && (data != [] && le == |data| ==> o.response == Some(Response(data, 0x90, 0x00)))
  {
    hide Xfr, Encode, SelectTags;
    PropertiesReached(c, cla, i, p1, [], le, extended, env);
  }

  // ---- Access control tables ----

  function AcrCommand(cla: byte, p1: byte, body: seq<byte>, le: nat, extended: bool): seq<byte>
    requires LengthsOk(body, le, extended)
  {
    Command(cla, 0x4c, p1, 0x00, FormFor(body, le, extended))
  }

  predicate AcaSelected(c: CardState, cla: byte, i: nat) {
    && CardOk(c) && PlainClass(cla) && c.current[Channel(cla)] == Some(i) && c.applets[i].kind.Aca?
    && AppletOk(c.applets[i])
  }

  lemma AcrReached(c: CardState, cla: byte, i: nat, p1: byte, body: seq<byte>, le: nat, extended: bool, env: Env)
    requires AcaSelected(c, cla, i) && LengthsOk(body, le, extended)
    ensures var raw := AcrCommand(cla, p1, body, le, extended);
            && Decode(raw).Ok?
            && var a := Decode(raw).apdu;
               && a.p1 == p1 && a.p2 == 0x00 && a.body == body && a.le == le
               && Xfr(c, raw, env) == GetAcr(c.(pending := None), c.applets[i].kind, a)
  {
    Handled(c, cla, 0x4c, p1, 0x00, FormFor(body, le, extended), env);
    var a := Decode(AcrCommand(cla, p1, body, le, extended)).apdu;
    var d := c.(pending := None);
    assert AppletProcess(d, a, env) == GetAcr(d, d.applets[i].kind, a);
    AcrSound(d, d.applets[i].kind, a);
  }

  lemma {:induction false} LeavesAreTops(l: seq<Member>)
    requires T.Sendable(l)
    ensures Encodable(l, Both) && Tops(l) == l
  {
    if l != [] {
      LeavesAreTops(l[1..]);
      assert l == [l[0]] + l[1..];
    }
  }

  /** What the host gets for a table: the applet information and the records. */
  function TableBytes(records: seq<Member>): seq<byte> {
    Encode(T.APPLET_INFORMATION + records, Both)
  }

  lemma TableIsParsed(records: seq<Member>)
    requires T.Sendable(records)
    ensures Encodable(T.APPLET_INFORMATION + records, Both)
    ensures Parse(TableBytes(records)) == T.APPLET_INFORMATION + records
  {
    assert T.Sendable(T.APPLET_INFORMATION + records);
    LeavesAreTops(T.APPLET_INFORMATION + records);
    ParseInvertsEncode(T.APPLET_INFORMATION + records);
  }

  /** The records the ACA applet sends for a P1 of the SimpleTLV format and a body of the right length. */
  function TableFor(k: Kind, p1: byte, body: seq<byte>): Option<seq<Member>>
    requires k.Aca? && k.pki <= A.PKI_SLOTS && k.tables.Ok() && BodyFits(p1, body)
  {
    match p1
    case 0x00 => T.AcrList(k.tables, None)
    case 0x01 => T.AcrList(k.tables, Some(body[0]))
    case 0x10 => T.AppletAcrList(k.pki, [])
    case 0x11 => T.AppletAcrList(k.pki, body)
    case 0x12 => T.ObjectAcrList(k.pki, (body[0], body[1]))
    case 0x20 => Some(T.AmpList(k.tables))
    case _ => Some(T.ServiceList(k.tables, k.pki))
  }

  predicate BodyFits(p1: byte, body: seq<byte>) {
    && p1 in [0x00, 0x01, 0x10, 0x11, 0x12, 0x20, 0x21]
    && |body| == match p1 case 0x01 => 1 case 0x11 => 7 case 0x12 => 2 case _ => 0
  }

  function NotFound(p1: byte): Status {
    if p1 == 0x12 then 0x6a80 else if p1 == 0x10 || p1 == 0x20 || p1 == 0x21 then 0x6f00 else 0x6a88
  }

  lemma TableIsPicked(c: CardState, k: Kind, a: Apdu)
    requires k.Aca? && k.pki <= A.PKI_SLOTS && k.tables.Ok() && a.p2 == 0x00 && BodyFits(a.p1, a.body)
    ensures GetAcr(c, k, a) == SendTable(c, TableFor(k, a.p1, a.body), a.le, NotFound(a.p1))
  {
  }

  /** Every table in SimpleTLV format: a status if there is none, otherwise the host parses exactly its records behind
    * the applet information. */
  lemma TableArrives(c: CardState, cla: byte, i: nat, p1: byte, body: seq<byte>, le: nat, extended: bool,
                     l: seq<Fetch>, env: Env)
    requires AcaSelected(c, cla, i) && LengthsOk(body, le, extended) && BodyFits(p1, body) && FetchesOk(l)
    requires var r := TableFor(c.applets[i].kind, p1, body);
             r.Some? ==> T.Sendable(r.value) && Total(l) >= |TableBytes(r.value)|
    ensures var r := TableFor(c.applets[i].kind, p1, body);
            var raw := AcrCommand(cla, p1, body, le, extended);
            && (r.None? ==> Xfr(c, raw, env) == Reply(c.(pending := None), NotFound(p1)))
            && (r.Some? ==>
                  var (d, data) := Ask(c, cla, raw, l, env);
                  d == c.(pending := None) && Parse(data) == T.APPLET_INFORMATION + r.value)
  {
    hide GetAcr, TableFor, Xfr;
    AcrReached(c, cla, i, p1, body, le, extended, env);
    var raw := AcrCommand(cla, p1, body, le, extended);
    var k := c.applets[i].kind;
    TableIsPicked(c.(pending := None), k, Decode(raw).apdu);
    var r := TableFor(k, p1, body);
    if r.Some? {
      TableIsParsed(r.value);
      AskGets(c, cla, raw, l, env, c.(pending := None), TableBytes(r.value), le);
    }
  }

  /** The host's view of an answer to P1=10: every applet in use. */
  predicate ShowsApplets(got: seq<Member>, t: seq<A.Applet>) {
    && |got| == 2 + |t| && got[1] == Member(0x81, Leaf([|t| % 0x100]))
    && forall k :: 0 <= k < |t| ==> T.ShowsApplet(got[2 + k], t[k])
  }

  /** Get ACR for all applets: the host parses and decodes the rules of every applet in use. */
  lemma AppletTableArrives(c: CardState, cla: byte, i: nat, le: nat, extended: bool, l: seq<Fetch>, env: Env)
    requires AcaSelected(c, cla, i) && LengthsOk([], le, extended) && FetchesOk(l)
    requires Total(l) >= |TableBytes(T.AppletAcrList(c.applets[i].kind.pki, []).value)|
    ensures var (d, data) := Ask(c, cla, AcrCommand(cla, 0x10, [], le, extended), l, env);
            ShowsApplets(Parse(data), A.InUse(A.APPLETS_TABLE, c.applets[i].kind.pki)) && d == c.(pending := None)
  {
    hide A.APPLETS_TABLE, A.InUse, Ask;
    var pki := c.applets[i].kind.pki;
    T.WholeTableDecodes(pki);
    T.InUseBounded(pki);
    var list := T.AppletAcrList(pki, []).value;
    TableArrives(c, cla, i, 0x10, [], le, extended, l, env);
    assert forall k :: 0 <= k < |list| ==> (T.APPLET_INFORMATION + list)[1 + k] == list[k];
  }

  /** What the host makes of an answer to P1=11 for an AID that is in the service table: the rules of the applet with
    * the service's id, and nothing exactly for the CCC. */
  predicate ShowsOneApplet(got: seq<Member>, pki: nat, aid: seq<byte>)
    requires pki <= A.PKI_SLOTS
  {
    T.PkiAids();
    A.AppletsTableBounded();
    var s, t := A.InUse(A.SERVICE_TABLE, pki), A.InUse(A.APPLETS_TABLE, pki);
    && 1 <= |got| <= 2
    && (|got| == 1 <==> aid == T.CCC_AID)
    && (|got| == 2 ==> exists k :: 0 <= k < |t| && t[k].id == T.AppletId(s, aid) && T.ShowsApplet(got[1], t[k]))
  }

  lemma OneAppletBehindInformation(pki: nat, aid: seq<byte>)
    requires pki <= A.PKI_SLOTS && aid != []
    ensures |A.SERVICE_TABLE| == 22
    ensures var s, r := A.InUse(A.SERVICE_TABLE, pki), T.AppletAcrList(pki, aid);
            && (r.None? <==> forall j :: 0 <= j < |s| ==> s[j].aid != aid)
            && (r.Some? ==> T.Sendable(r.value) && ShowsOneApplet(T.APPLET_INFORMATION + r.value, pki, aid))
  {
    hide A.APPLETS_TABLE, A.SERVICE_TABLE, T.AppletAcrList, T.AppletId, T.ShowsApplet, T.Sendable;
    T.PkiAids();
    A.AppletsTableBounded();
    T.OneApplet(pki, aid);
    var r := T.AppletAcrList(pki, aid);
    if r.Some? && |r.value| == 1 {
      assert (T.APPLET_INFORMATION + r.value)[1] == r.value[0];
    }
  }

  /** Get ACR for one applet, for every AID. */
  lemma OneAppletArrives(c: CardState, cla: byte, i: nat, aid: seq<byte>, le: nat, extended: bool, l: seq<Fetch>,
                         env: Env)
    requires AcaSelected(c, cla, i) && LengthsOk(aid, le, extended) && |aid| == 7 && FetchesOk(l)
    requires var r := T.AppletAcrList(c.applets[i].kind.pki, aid); r.Some? ==> Total(l) >= |TableBytes(r.value)|
    ensures |A.SERVICE_TABLE| == 22
    ensures var pki := c.applets[i].kind.pki;
            var raw := AcrCommand(cla, 0x11, aid, le, extended);
            var s := A.InUse(A.SERVICE_TABLE, pki);
            if forall j :: 0 <= j < |s| ==> s[j].aid != aid then
              Xfr(c, raw, env) == Reply(c.(pending := None), 0x6a88)
            else
              var (d, data) := Ask(c, cla, raw, l, env);
              ShowsOneApplet(Parse(data), pki, aid) && d == c.(pending := None)
  {
    hide A.APPLETS_TABLE, A.SERVICE_TABLE, T.AppletAcrList, ShowsOneApplet, T.Sendable, LengthsOk, Ask, Xfr, Parse,
         AcrCommand, Total, FetchesOk, TableBytes, PlainClass, Reply;
    var pki := c.applets[i].kind.pki;
    OneAppletBehindInformation(pki, aid);
    TableArrives(c, cla, i, 0x11, aid, le, extended, l, env);
  }

  /** Get ACR for one object: the rules of the first object with the id over all applets in use. */
  lemma OneObjectArrives(c: CardState, cla: byte, i: nat, coid: (byte, byte), le: nat, extended: bool, l: seq<Fetch>,
                         env: Env)
    requires AcaSelected(c, cla, i) && LengthsOk([coid.0, coid.1], le, extended) && FetchesOk(l)
    requires var r := T.ObjectAcrList(c.applets[i].kind.pki, coid); r.Some? ==> Total(l) >= |TableBytes(r.value)|
    ensures |A.APPLETS_TABLE| == 23
    ensures var t := A.InUse(A.APPLETS_TABLE, c.applets[i].kind.pki);
            var raw := AcrCommand(cla, 0x12, [coid.0, coid.1], le, extended);
            if forall h :: 0 <= h < |t| ==> T.HasNone(t[h].objects, coid) then
              Xfr(c, raw, env) == Reply(c.(pending := None), 0x6a80)
            else
              var (d, data) := Ask(c, cla, raw, l, env);
              && d == c.(pending := None) && |Parse(data)| == 2
              && exists h: nat, k: nat :: T.IsFirst(t, coid, h, k) && T.ShowsObject(Parse(data)[1], t[h].objects[k])
  {
    hide A.APPLETS_TABLE, T.ObjectAcrList, Ask, Xfr;
    var pki := c.applets[i].kind.pki;
    A.AppletsTableBounded();
    T.OneObject(pki, coid);
    TableArrives(c, cla, i, 0x12, [coid.0, coid.1], le, extended, l, env);
    var r := T.ObjectAcrList(pki, coid);
    if r.Some? {
      assert (T.APPLET_INFORMATION + r.value)[1] == r.value[0];
    }
  }

  /** All access rules in order, or exactly one, with the id asked for. */
  predicate ShowsRules(got: seq<Member>, acrid: Option<byte>) {
    match acrid
    case None =>
      |got| == 2 + |X.ACR_TABLE| && forall k :: 0 <= k < |X.ACR_TABLE| ==> T.ShowsRule(got[2 + k], X.ACR_TABLE[k])
    case Some(id) => |got| == 2 && exists k :: 0 <= k < |X.ACR_TABLE| && X.ACR_TABLE[k].acrid == id
                                              && T.ShowsRule(got[1], X.ACR_TABLE[k])
  }

  predicate HasRule(id: byte) {
    exists k :: 0 <= k < |X.ACR_TABLE| && X.ACR_TABLE[k].acrid == id
  }

  lemma RulesBehindInformation(t: T.RawTables, acrid: Option<byte>)
    requires t.Ok()
    ensures var r := T.AcrList(t, acrid);
            && (r.None? <==> acrid.Some? && !HasRule(acrid.value))
            && (r.Some? ==> T.Sendable(r.value) && ShowsRules(T.APPLET_INFORMATION + r.value, acrid))
  {
    hide X.ACR_TABLE, T.AcrList, T.ShowsRule;
    T.RulesShown(t, acrid);
    var r := T.AcrList(t, acrid);
    if r.Some? {
      assert forall k :: 0 <= k < |r.value| ==> (T.APPLET_INFORMATION + r.value)[1 + k] == r.value[k];
    }
  }

  /** Get ACR for the access rules: all of them in order, or the one with the id. */
  lemma RulesArrive(c: CardState, cla: byte, i: nat, acrid: Option<byte>, le: nat, extended: bool, l: seq<Fetch>,
                    env: Env)
    requires AcaSelected(c, cla, i) && FetchesOk(l)
    requires LengthsOk(if acrid.Some? then [acrid.value] else [], le, extended)
    requires var r := T.AcrList(c.applets[i].kind.tables, acrid); r.Some? ==> Total(l) >= |TableBytes(r.value)|
    ensures var body := if acrid.Some? then [acrid.value] else [];
            var raw := AcrCommand(cla, if acrid.Some? then 0x01 else 0x00, body, le, extended);
            if acrid.Some? && !HasRule(acrid.value) then Xfr(c, raw, env) == Reply(c.(pending := None), 0x6a88)
            else
              var (d, data) := Ask(c, cla, raw, l, env);
              d == c.(pending := None) && ShowsRules(Parse(data), acrid)
  {
    hide HasRule, ShowsRules, T.AcrList, T.Sendable, LengthsOk, Ask, Xfr, Parse, AcrCommand, Total, FetchesOk,
         TableBytes, PlainClass, Reply;
    RulesBehindInformation(c.applets[i].kind.tables, acrid);
    match acrid {
      case None => TableArrives(c, cla, i, 0x00, [], le, extended, l, env);
      case Some(id) => TableArrives(c, cla, i, 0x01, [id], le, extended, l, env);
    }
  }

  lemma ProvidersBehindInformation(t: T.RawTables)
    requires t.Ok()
    ensures T.Sendable(T.AmpList(t))
    ensures var got := T.APPLET_INFORMATION + T.AmpList(t);
            && |got| == 5
            && (forall k :: 1 <= k <= 3 ==> T.ShowsId(got[1 + k], 0x90, T.AMP_TABLE[k].id, |T.AMP_TABLE[k].aid|))
            && T.ShowsId(got[2], 0x90, 0x1e, 7) && T.ShowsId(got[3], 0x90, 0x1d, 7)
            && got[4] == Member(0x90, Leaf([0x00, 0x92, 0x00]))
            && (forall j :: 0 <= j < T.NUM_AMPS ==> (T.ShowsProvider(got, j) <==> j > 0))
  {
    hide T.AmpList, T.ShowsId, T.ShowsProvider, T.Sendable;
    T.ProvidersShown(t);
    forall j | 0 <= j < T.NUM_AMPS ensures T.ShowsProvider(T.APPLET_INFORMATION + T.AmpList(t), j) <==> j > 0 {
      T.FirstProviderIsMissing(t, j);
    }
    var l := T.AmpList(t);
    assert forall k :: 0 <= k < |l| ==> (T.APPLET_INFORMATION + l)[1 + k] == l[k];
  }

  /** Get ACR for the providers and for the services: each record shows the id of an entry and a field of the length of
    * its AID. The services come in order; the providers without the first, and with a slot that nobody filled in at the
    * end. */
  lemma IdTablesArrive(c: CardState, cla: byte, i: nat, p1: byte, le: nat, extended: bool, l: seq<Fetch>, env: Env)
    requires AcaSelected(c, cla, i) && LengthsOk([], le, extended) && FetchesOk(l) && (p1 == 0x20 || p1 == 0x21)
    requires Total(l) >= |TableBytes(TableFor(c.applets[i].kind, p1, []).value)|
    ensures |A.SERVICE_TABLE| == 22
    ensures var (d, data) := Ask(c, cla, AcrCommand(cla, p1, [], le, extended), l, env);
            var got, s := Parse(data), A.InUse(A.SERVICE_TABLE, c.applets[i].kind.pki);
            && d == c.(pending := None)
            && if p1 == 0x20 then
                 && |got| == 5
                 && (forall k :: 1 <= k <= 3 ==> T.ShowsId(got[1 + k], 0x90, T.AMP_TABLE[k].id, |T.AMP_TABLE[k].aid|))
                 && T.ShowsId(got[2], 0x90, 0x1e, 7) && T.ShowsId(got[3], 0x90, 0x1d, 7)
                 && got[4] == Member(0x90, Leaf([0x00, 0x92, 0x00]))
                 && (forall j :: 0 <= j < T.NUM_AMPS ==> (T.ShowsProvider(got, j) <==> j > 0))
               else |got| == 2 + |s| && forall k :: 0 <= k < |s| ==> T.ShowsId(got[2 + k], 0x93, s[k].id, |s[k].aid|)
  {
    hide A.SERVICE_TABLE, T.AMP_TABLE, T.AmpList, T.ServiceList, Ask, T.ShowsId, T.ShowsProvider;
    var k := c.applets[i].kind;
    T.PkiAids();
    ProvidersBehindInformation(k.tables);
    T.ServicesShown(k.tables, k.pki);
    TableArrives(c, cla, i, p1, [], le, extended, l, env);
    var r := TableFor(k, p1, []).value;
    assert forall h :: 0 <= h < |r| ==> (T.APPLET_INFORMATION + r)[1 + h] == r[h];
  }

  // ---- Extended tables ----

  /** The bytes of an extended table. */
  function ExtendedBytes(p1: byte, pki: nat): seq<byte>
    requires pki <= A.PKI_SLOTS
  {
    if p1 == 0x61 then X.ExtendedServices(A.InUse(A.SERVICE_TABLE, pki))
    else if p1 == 0x60 then X.AMP_EXTENDED
    else if p1 == 0x40 || p1 == 0x41 then X.ExtendedAcr(X.ACR_TABLE)
    else A.ExtendedTable(A.InUse(A.APPLETS_TABLE, pki))
  }

  /** What a host reads out of them. */
  predicate ShowsTable(data: seq<byte>, p1: byte, pki: nat)
    requires pki <= A.PKI_SLOTS
  {
    if p1 == 0x61 then X.DecodeServices(data) == Some(A.InUse(A.SERVICE_TABLE, pki))
    else if p1 == 0x60 then data == X.AMP_EXTENDED && ListsAllProviders(data)
    else if p1 == 0x40 || p1 == 0x41 then A.Unframe(data, []) == Some(X.Bodies(X.ACR_TABLE))
    else A.DecodeExtended(data) == Some(ShownApplets(A.InUse(A.APPLETS_TABLE, pki)))
  }

  /** Id, AID and four more bytes of every provider, the first included. */
  predicate ListsAllProviders(data: seq<byte>) {
    |data| == 14 * T.NUM_AMPS
    && forall j :: 0 <= j < T.NUM_AMPS ==>
         data[14 * j..14 * j + 10] == [T.AMP_TABLE[j].id, 0x00, |T.AMP_TABLE[j].aid|] + T.AMP_TABLE[j].aid
  }

  predicate IsExtended(p1: byte) {
    p1 in [0x40, 0x41, 0x50, 0x51, 0x52, 0x60, 0x61]
  }

  lemma ExtendedIsSent(c: CardState, k: Kind, a: Apdu)
    requires k.Aca? && k.pki <= A.PKI_SLOTS && k.tables.Ok() && a.p2 == 0x00 && a.body == [] && IsExtended(a.p1)
    ensures GetAcr(c, k, a) == Send(c, ExtendedBytes(a.p1, k.pki), a.le)
  {
    hide Send, A.APPLETS_TABLE, A.SERVICE_TABLE, X.ACR_TABLE, X.AMP_EXTENDED, X.ExtendedServices, X.ExtendedAcr;
    assert PickTable(k, a) == Extended(ExtendedBytes(a.p1, k.pki));
  }

  /** The extended forms: services, providers, access rules and applet rules arrive complete. */
  lemma ExtendedTablesArrive(c: CardState, cla: byte, i: nat, p1: byte, le: nat, extended: bool, l: seq<Fetch>,
                             env: Env)
    requires AcaSelected(c, cla, i) && LengthsOk([], le, extended) && FetchesOk(l)
    requires IsExtended(p1) && Total(l) >= 0xffff
    ensures var (d, data) := Ask(c, cla, AcrCommand(cla, p1, [], le, extended), l, env);
            ShowsTable(data, p1, c.applets[i].kind.pki) && d == c.(pending := None)
  {
    hide GetAcr, ExtendedBytes, ShowsTable, Xfr;
    var k := c.applets[i].kind;
    var raw := AcrCommand(cla, p1, [], le, extended);
    AcrReached(c, cla, i, p1, [], le, extended, env);
    ExtendedIsSent(c.(pending := None), k, Decode(raw).apdu);
    ExtendedTablesDecode(p1, k.pki);
    AskGets(c, cla, raw, l, env, c.(pending := None), ExtendedBytes(p1, k.pki), le);
  }

  function ShownApplets(t: seq<A.Applet>): (r: seq<A.Applet>)
    ensures |r| == |t|
  {
    seq(|t|, k requires 0 <= k < |t| => t[k].(objects := A.VisibleObjects(t[k].objects)))
  }

  lemma ServicesShown(pki: nat)
    requires pki <= A.PKI_SLOTS
    ensures |ExtendedBytes(0x61, pki)| <= 0xffff && ShowsTable(ExtendedBytes(0x61, pki), 0x61, pki)
  {
    hide A.SERVICE_TABLE;
    X.TablesBounded();
    X.ExtendedServicesDecode(A.InUse(A.SERVICE_TABLE, pki));
    X.ExtendedServicesBound(A.InUse(A.SERVICE_TABLE, pki));
  }

  lemma RulesShown(t: seq<X.AcrEntry>)
    requires |t| <= 100 && forall k :: 0 <= k < |t| ==> t[k].Bounded()
    ensures |X.ExtendedAcr(t)| <= 0xffff
    ensures A.Unframe(X.ExtendedAcr(t), []) == Some(X.Bodies(t))
  {
    X.ExtendedAcrDecodes(t);
    X.ExtendedAcrBound(t);
  }

  lemma AppletsShown(t: seq<A.Applet>)
    requires |t| <= 100 && forall k :: 0 <= k < |t| ==> A.Bounded(t[k])
    ensures |A.ExtendedTable(t)| <= 0xffff && A.DecodeExtended(A.ExtendedTable(t)) == Some(ShownApplets(t))
  {
    A.ExtendedRoundTrip(t);
    A.ExtendedTableBound(t);
    assert A.DecodeExtended(A.ExtendedTable(t)).value == ShownApplets(t);
  }

  lemma ExtendedTablesDecode(p1: byte, pki: nat)
    requires pki <= A.PKI_SLOTS && IsExtended(p1)
    ensures |ExtendedBytes(p1, pki)| <= 0xffff && ShowsTable(ExtendedBytes(p1, pki), p1, pki)
  {
    if p1 == 0x61 {
      ServicesShown(pki);
    } else if p1 == 0x40 || p1 == 0x41 {
      X.TablesBounded();
      assert |X.ACR_TABLE| <= 100;
      hide X.ACR_TABLE;
      RulesShown(X.ACR_TABLE);
    } else if p1 == 0x60 {
      forall j | 0 <= j < T.NUM_AMPS
        ensures X.AMP_EXTENDED[14 * j..14 * j + 10]
             == [T.AMP_TABLE[j].id, 0x00, |T.AMP_TABLE[j].aid|] + T.AMP_TABLE[j].aid
      {
        T.ExtendedListsAllProviders(j);
      }
    } else {
      A.AppletsTableBounded();
      hide A.APPLETS_TABLE;
      AppletsShown(A.InUse(A.APPLETS_TABLE, pki));
    }
  }
}
