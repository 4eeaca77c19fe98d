/** The virtual card as a step machine: what one command APDU or reset does to the selected applets, the
  * pending response and the applets' private state (src/card_7816.c, src/vcard.c, src/cac.c).
  * This module is the meaning; `VCards` holds the class whose methods compute it. */
module Card {
  import opened Bytes
  import opened SimpleTlv
  import opened Apdus
  import A = Acr
  import AcaExtended
  import AcaTables
  import CacFile

  const MAX_CHANNEL := 4

  datatype VStatus = Done | Next | Fail | Abort // Abort: an assertion of the program failed

  datatype Response =
    | Response(data: seq<byte>, sw1: byte, sw2: byte)
    | RawResponse(data: seq<byte>)
  {
    function Bytes(): seq<byte> {
      match this
      case Response(d, a, b) => d + [a, b]
      case RawResponse(d) => d
    }
  }

  datatype Kind =
    | Pki(sign: seq<byte>, key: nat)
    | Aca(pki: nat, tables: AcaTables.RawTables)
    | Plain
    | Passthrough(name: string)
    | DataObjects(answers: map<int, seq<byte>>, windows: bool) // the GP and MSFT applets

  /** A buffer that is NULL is None. */
  datatype Applet = Applet(aid: seq<byte>, kind: Kind, tagFile: Option<seq<byte>>, valFile: Option<seq<byte>>,
                           properties: seq<Member>, shortLen: nat, coids: seq<(byte, byte)>)

  /** A response waiting for GET RESPONSE: `len` bytes from `current` on are still to be sent. */
  datatype Pending = Pending(buffer: seq<byte>, current: nat, len: nat) {
    predicate Ok() {
      0 < len && current + len == |buffer|
    }

    function Rest(): seq<byte>
      requires Ok()
    {
      buffer[current..]
    }
  }

  /** Applets are kept oldest first; a channel refers to its applet by index. */
  datatype CardState = CardState(applets: seq<Applet>, current: seq<Option<nat>>, pending: Option<Pending>,
                                 windows: bool)

  /** What the code outside the model answers during one step. */
  datatype Env = Env(rsaStatus: Status, rsaOut: nat -> byte, loggedIn: bool, loginCount: int, loginStatus: Status,
                     stored: Option<seq<byte>>)

  /** `signed` records which applet handed which bytes to the RSA operation. */
  datatype Outcome = Outcome(card: CardState, status: VStatus, response: Option<Response>,
                             signed: Option<(nat, seq<byte>)>)

  // ---- Validity ----

  predicate AppletOk(a: Applet) {
    && |a.aid| <= 16
    && Encodable(a.properties, Both)
    && a.shortLen <= |a.properties|
    && (a.kind.Aca? ==> a.kind.pki <= A.PKI_SLOTS && a.kind.tables.Ok())
  }

  predicate CardOk(c: CardState) {
    && (forall i :: 0 <= i < |c.applets| ==> AppletOk(c.applets[i]))
    && |c.current| == MAX_CHANNEL
    && (forall ch :: 0 <= ch < MAX_CHANNEL && c.current[ch].Some? ==> c.current[ch].value < |c.applets|)
    && c.current[2].None? && c.current[3].None?
    && (c.pending.Some? ==> c.pending.value.Ok())
  }

  // ---- Responses ----

  function MakeResponse(st: Status): Response {
    Response([], st / 0x100, st % 0x100)
  }

  function Reply(c: CardState, st: Status): Outcome {
    Outcome(c, Done, Some(MakeResponse(st)), None)
  }

  function PassOn(c: CardState): Outcome {
    Outcome(c, Next, None, None)
  }

  /** vcard_init_buffer_response: the data waits, the answer says how much there is. */
  function InitBuffer(c: CardState, data: seq<byte>): Outcome {
    Outcome(c.(pending := Some(Pending(data, 0, |data|))), Done,
            Some(Response([], 0x61, if |data| > 255 then 0 else |data|)), None)
  }

  /** vcard_response_new_bytes */
  function SendBytes(c: CardState, data: seq<byte>, le: nat, sw1: byte, sw2: byte): Outcome {
    if |data| > le then InitBuffer(c, data) else Outcome(c, Done, Some(Response(data, sw1, sw2)), None)
  }

  /** vcard_response_new with a status word of 9000 */
  function Send(c: CardState, data: seq<byte>, le: nat): Outcome {
    SendBytes(c, data, le, 0x90, 0x00)
  }

  // ---- CAC applets ----

  function FileBytes(f: Option<seq<byte>>): seq<byte> {
    if f.Some? then f.value else []
  }

  /** The first property with the given tag. */
  function FindTag(props: seq<Member>, tag: byte): (r: Option<Member>)
    ensures r.Some? ==> r.value in props && r.value.tag == tag
    ensures r.None? <==> forall i :: 0 <= i < |props| ==> props[i].tag != tag
  {
    if props == [] then None
    else if props[0].tag == tag then Some(props[0])
    else FindTag(props[1..], tag)
  }

  /** The properties for a list of tags, in the order asked for; None when one of them is missing. */
  function SelectTags(props: seq<Member>, tags: seq<byte>): (r: Option<seq<Member>>)
    ensures r.Some? ==> |r.value| == |tags|
                        && forall j :: 0 <= j < |tags| ==> FindTag(props, tags[j]) == Some(r.value[j])
  {
    if tags == [] then Some([])
    else
      var m, rest := FindTag(props, tags[0]), SelectTags(props, tags[1..]);
      if m.None? || rest.None? then None else Some([m.value] + rest.value)
  }

  lemma {:induction false} MissingTag(props: seq<Member>, tags: seq<byte>)
    ensures SelectTags(props, tags).None? <==> exists j :: 0 <= j < |tags| && FindTag(props, tags[j]).None?
  {
    if tags != [] {
      MissingTag(props, tags[1..]);
      if j :| 0 <= j < |tags| && FindTag(props, tags[j]).None? {
        if j > 0 {
          assert tags[1..][j - 1] == tags[j];
        }
      }
    }
  }

  lemma SelectedEncodable(props: seq<Member>, tags: seq<byte>)
    requires Encodable(props, Both) && SelectTags(props, tags).Some?
    ensures Encodable(SelectTags(props, tags).value, Both)
  {
  }

  /** get_properties: an answer that Le cannot hold is announced with 6C or left pending. */
  function GetProperties(c: CardState, props: seq<Member>, tags: seq<byte>, le: nat): Outcome
    requires Encodable(props, Both)
  {
    var list := if tags == [] then Some(props) else SelectTags(props, tags);
    if list.None? then Reply(c, 0x6a88)
    else
      var data := Encode(list.value, Both);
      if data == [] then Reply(c, 0x6f00)
      else if le > |data| then Outcome(c, Done, Some(Response([], 0x6c, |data| % 0x100)), None)
      else Send(c, data, le)
  }

  /** The GET PROPERTIES arm of cac_common_process_apdu. */
  function PropertiesArm(c: CardState, applet: Applet, a: Apdu): Outcome
    requires AppletOk(applet)
  {
    var short := applet.properties[..applet.shortLen];
    PrefixEncodable(applet.properties, applet.shortLen);
    if a.p2 != 0x00 then Reply(c, 0x6a86)
    else if a.p1 == 0x01 then (if a.body != [] then Reply(c, 0x6984) else GetProperties(c, short, [], a.le))
    else if a.p1 == 0x02 then (if a.body == [] then Reply(c, 0x6984) else GetProperties(c, short, a.body, a.le))
    else if a.p1 == 0x40 then GetProperties(c, applet.properties, [], a.le)
    else Reply(c, 0x6a86)
  }

  /** cac_common_process_apdu for the applet at index `i` */
  function Common(c: CardState, i: nat, a: Apdu): Outcome
    requires CardOk(c) && i < |c.applets|
  {
    var applet := c.applets[i];
    if a.ins == 0x56 then PropertiesArm(c, applet, a)
    else if a.ins == 0xa4 then // SELECT
      if a.p1 != 0x02 then PassOn(c)
      else if |a.body| != 2 then Reply(c, 0x6984)
      else if (a.body[0], a.body[1]) !in applet.coids then Reply(c, 0x6a82)
      else Reply(c, 0x9000)
    else if a.ins == 0xc0 || a.ins == 0x20 then PassOn(c) // GET RESPONSE, VERIFY
    else Reply(c, 0x6d00)
  }

  lemma PrefixEncodable(l: seq<Member>, n: nat)
    requires Encodable(l, Both) && n <= |l|
    ensures Encodable(l[..n], Both)
  {
  }

  /** The READ BUFFER arm of cac_common_process_apdu_read. */
  function ReadBuffer(c: CardState, applet: Applet, a: Apdu): Outcome {
    if |a.body| != 2 then Reply(c, 0x6984)
    else if a.body[0] != 0x01 && a.body[0] != 0x02 then Reply(c, 0x6984)
    else
      var file := FileBytes(if a.body[0] == 0x02 then applet.valFile else applet.tagFile);
      var offset := FromBe16(a.p1, a.p2);
      if offset > |file| then Reply(c, 0x6a86)
      else SendBytes(c, file[offset..offset + Min(a.body[1], |file| - offset)], a.le, 0x90, 0x00)
  }

  /** cac_common_process_apdu_read */
  function CommonRead(c: CardState, i: nat, a: Apdu): Outcome
    requires CardOk(c) && i < |c.applets|
  {
    if a.ins == 0x52 then ReadBuffer(c, c.applets[i], a)
    else if a.ins == 0x58 then Reply(c, 0x6900)
    else Common(c, i, a)
  }

  function SetKind(c: CardState, i: nat, k: Kind): CardState
    requires i < |c.applets|
  {
    c.(applets := c.applets[i := c.applets[i].(kind := k)])
  }

  /** What the RSA operation makes of `data`, as the environment gives it. */
  function RsaResult(env: Env, data: seq<byte>): (r: seq<byte>)
    ensures |r| == |data| && forall k: nat :: k < |data| ==> r[k] == env.rsaOut(k)
  {
    seq<byte>(|data|, k requires 0 <= k < |data| => env.rsaOut(k))
  }

  /** cac_applet_pki_process_apdu */
  function PkiProcess(c: CardState, i: nat, a: Apdu, env: Env): Outcome
    requires CardOk(c) && i < |c.applets| && c.applets[i].kind.Pki?
  {
    if a.ins == 0x58 then Reply(c, 0x6985)
    else if a.ins == 0x42 then
      if a.p2 != 0 then Reply(c, 0x6a86)
      else
        var k := c.applets[i].kind;
        var data := k.sign + a.body;
        var cleared := SetKind(c, i, k.(sign := []));
        if a.p1 == 0x80 then Reply(SetKind(c, i, k.(sign := data)), 0x9000)
        else if a.p1 == 0x00 then
          (if env.rsaStatus != SUCCESS then Reply(cleared, env.rsaStatus)
           else Send(cleared, RsaResult(env, data), a.le)).(signed := Some((i, data)))
        else Reply(cleared, 0x6a86)
    else CommonRead(c, i, a)
  }

  /** Merge a table with the applet information, encode it and send it. */
  function SendTable(c: CardState, table: Option<seq<Member>>, le: nat, notFound: Status): Outcome {
    if table.None? then Reply(c, notFound)
    else
      var list := AcaTables.APPLET_INFORMATION + table.value;
      if !Encodable(list, Both) then Reply(c, 0x6f00) else Send(c, Encode(list, Both), le)
  }

  datatype AcrAnswer =
    | Refuse(status: Status)
    | Table(records: Option<seq<Member>>, notFound: Status)
    | Extended(data: seq<byte>)

  /** How the GET ACR arm of cac_applet_aca_process_apdu picks a table by P1. */
  function PickTable(k: Kind, a: Apdu): AcrAnswer
    requires k.Aca? && k.pki <= A.PKI_SLOTS && k.tables.Ok()
  {
    if a.p2 != 0x00 then Refuse(0x6a86)
    else if a.p1 !in [0x00, 0x01, 0x10, 0x11, 0x12, 0x20, 0x21, 0x40, 0x41, 0x50, 0x51, 0x52, 0x60, 0x61] then
      Refuse(0x6900)
    else if |a.body| != (match a.p1 case 0x01 => 1 case 0x11 => 7 case 0x12 => 2 case _ => 0) then Refuse(0x6984)
    else
      match a.p1
      case 0x00 => Table(AcaTables.AcrList(k.tables, None), 0x6a88)
      case 0x01 => Table(AcaTables.AcrList(k.tables, Some(a.body[0])), 0x6a88)
      case 0x10 => Table(AcaTables.AppletAcrList(k.pki, []), 0x6f00)
      case 0x11 => Table(AcaTables.AppletAcrList(k.pki, a.body), 0x6a88)
      case 0x12 => Table(AcaTables.ObjectAcrList(k.pki, (a.body[0], a.body[1])), 0x6a80)
      case 0x20 => Table(Some(AcaTables.AmpList(k.tables)), 0x6f00)
      case 0x21 => Table(Some(AcaTables.ServiceList(k.tables, k.pki)), 0x6f00)
      case 0x40 => Extended(AcaExtended.ExtendedAcr(AcaExtended.ACR_TABLE))
      case 0x41 => Extended(AcaExtended.ExtendedAcr(AcaExtended.ACR_TABLE))
      case 0x60 => Extended(AcaExtended.AMP_EXTENDED)
      case 0x61 => Extended(AcaExtended.ExtendedServices(A.InUse(A.SERVICE_TABLE, k.pki)))
      case _ => Extended(A.ExtendedTable(A.InUse(A.APPLETS_TABLE, k.pki)))
  }

  function GetAcr(c: CardState, k: Kind, a: Apdu): Outcome
    requires k.Aca? && k.pki <= A.PKI_SLOTS && k.tables.Ok()
  {
    match PickTable(k, a)
    case Refuse(st) => Reply(c, st)
    case Table(records, notFound) => SendTable(c, records, a.le, notFound)
    case Extended(data) => Send(c, data, a.le)
  }

  /** cac_applet_aca_process_apdu */
  function AcaProcess(c: CardState, i: nat, a: Apdu): Outcome
    requires CardOk(c) && i < |c.applets| && c.applets[i].kind.Aca?
  {
    if a.ins == 0x4c then GetAcr(c, c.applets[i].kind, a) else Common(c, i, a)
  }

  /** The files of a passthrough applet, made from the object behind it. */
  function FetchedFiles(applet: Applet, stored: Option<seq<byte>>): Applet {
    match stored
    case None => applet.(tagFile := Some([0, 0]), valFile := Some([0, 0]))
    case Some(d) =>
      applet.(tagFile := FileIfAny(Parse(d), TL), valFile := FileIfAny(Parse(d), Value))
  }

  function FileIfAny(tlv: seq<Member>, mode: Mode): Option<seq<byte>> {
    if CacFile.Creatable(tlv, mode) then Some(CacFile.FileOf(tlv, mode)) else None
  }

  /** cac_passthrough_container_process_apdu: the object is read when a file is missing. */
  function PassthroughProcess(c: CardState, i: nat, a: Apdu, env: Env): Outcome
    requires CardOk(c) && i < |c.applets|
  {
    var applet := c.applets[i];
    if a.ins == 0x52 && (applet.tagFile.None? || applet.valFile.None?) then
      CommonRead(c.(applets := c.applets[i := FetchedFiles(applet, env.stored)]), i, a)
    else CommonRead(c, i, a)
  }

  /** The GP and MSFT applets answer GET DATA. */
  function DataObjectsProcess(c: CardState, i: nat, a: Apdu): Outcome
    requires i < |c.applets| && c.applets[i].kind.DataObjects?
  {
    var k := c.applets[i].kind;
    var tag := FromBe16(a.p1, a.p2);
    if a.ins != 0xca then PassOn(c)
    else if tag !in k.answers then Reply(c, 0x6a88)
    else Send(c.(windows := c.windows || k.windows), k.answers[tag], a.le)
  }

  // ---- The card ----

  /** vcard_find_applet: the applet added last wins. */
  function FindApplet(applets: seq<Applet>, aid: seq<byte>): (r: Option<nat>)
    ensures r.Some? ==> r.value < |applets| && applets[r.value].aid == aid
                        && forall j :: r.value < j < |applets| ==> applets[j].aid != aid
    ensures r.None? ==> forall j :: 0 <= j < |applets| ==> applets[j].aid != aid
  {
    if applets == [] then None
    else if applets[|applets| - 1].aid == aid then Some(|applets| - 1)
    else FindApplet(applets[..|applets| - 1], aid)
  }

  /** reset_applet: a PKI applet forgets its sign buffer, a passthrough applet its files. */
  function ResetApplet(a: Applet): Applet {
    match a.kind
    case Pki(_, key) => a.(kind := Pki([], key))
    case Passthrough(_) => a.(tagFile := None, valFile := None)
    case _ => a
  }

  /** vcard_select_applet */
  function SelectApplet(c: CardState, channel: nat, found: Option<nat>): CardState
    requires channel < |c.current| && (found.Some? ==> found.value < |c.applets|)
  {
    var d := c.(current := c.current[channel := found]);
    if found.None? then d else d.(applets := d.applets[found.value := ResetApplet(d.applets[found.value])])
  }

  const GP_AID: seq<byte> := [0xa0, 0x00, 0x00, 0x00, 0x03, 0x00, 0x00]
  const GP_RESPONSE: seq<byte> :=
    [0x6f, 0x19, 0x84, 0x08, 0xa0, 0x00, 0x00, 0x00, 0x03, 0x00, 0x00, 0x00, 0xa5, 0x0d, 0x9f, 0x6e,
     0x06, 0x12, 0x91, 0x51, 0x81, 0x01, 0x00, 0x9f, 0x65, 0x01, 0xff]
  const FCI_TEMPLATE_SIZE := 22

  /** The FCI template around an AID. */
  function Fci(aid: seq<byte>): seq<byte>
    requires |aid| <= 16
  {
    [0x6f, |aid| + 4, 0x84, |aid|] + aid + [0xa5, 0x00]
  }

  /** The SELECT arm of vcard7816_vm_process_apdu. */
  function VmSelect(c: CardState, a: Apdu): Outcome
    requires CardOk(c) && a.channel < MAX_CHANNEL
  {
    if a.p1 != 0x04 then Reply(c, 0x6a81)
    else
      var found := FindApplet(c.applets, a.body);
      var d := SelectApplet(c, a.channel, found);
      if found.None? then Reply(d, 0x6a82)
      else if found == FindApplet(c.applets, GP_AID) then Send(d, GP_RESPONSE, a.le)
      else if 6 + |a.body| > FCI_TEMPLATE_SIZE then Outcome(d, Abort, None, None)
      else Send(d, Fci(a.body), a.le)
  }

  /** The VERIFY arm: without a PIN it reports the tries left. */
  function VmVerify(c: CardState, a: Apdu, env: Env): Outcome {
    if a.p1 != 0x00 || a.p2 != 0x00 then Reply(c, 0x6a00)
    else if a.body != [] then Reply(c, env.loginStatus)
    else if env.loggedIn then Reply(c, 0x9000)
    else
      var count := if env.loginCount == -1 && c.windows then 3 else env.loginCount;
      if count < 0 then Reply(c, 0x6a88)
      else Outcome(c, Done, Some(Response([], 0x63, 0xc0 + Min(count, 0xf))), None)
  }

  /** The GET RESPONSE arm (section 7.1 of ISO/IEC 7816-4:1995). */
  function VmGetResponse(c: CardState, a: Apdu): Outcome
    requires c.pending.Some? ==> c.pending.value.Ok()
  {
    match c.pending
    case None => Reply(c, 0x6a88)
    case Some(p) =>
      var n := Min(p.len, a.le);
      var next := Min(256, p.len - n);
      var data := p.buffer[p.current..p.current + n];
      var o := SendBytes(c, data, a.le, if next != 0 then 0x61 else 0x90, next % 0x100);
      o.(card := o.card.(pending := if next == 0 then None else Some(Pending(p.buffer, p.current + n, p.len - n))))
  }

  /** vcard7816_vm_process_apdu */
  function VmProcess(c: CardState, a: Apdu, env: Env): Outcome
    requires CardOk(c) && a.channel < MAX_CHANNEL
  {
    if a.genType != Iso then Reply(c, 0x6900)
    else if a.secureMessaging != 0 then Reply(c, 0x6882)
    else if a.ins == 0xa4 then VmSelect(c, a)
    else if a.ins == 0x20 then VmVerify(c, a, env)
    else if a.ins == 0xc0 then VmGetResponse(c, a)
    else Reply(c, 0x6900)
  }

  /** vcard_process_applet_apdu: the applet selected on the command's channel sees it first. */
  function AppletProcess(c: CardState, a: Apdu, env: Env): Outcome
    requires CardOk(c) && a.channel < MAX_CHANNEL
  {
    match c.current[a.channel]
    case None => PassOn(c)
    case Some(i) =>
      match c.applets[i].kind
      case Pki(_, _) => PkiProcess(c, i, a, env)
      case Aca(_, _) => AcaProcess(c, i, a)
      case Plain => CommonRead(c, i, a)
      case Passthrough(_) => PassthroughProcess(c, i, a, env)
      case DataObjects(_, _) => DataObjectsProcess(c, i, a)
  }

  /** A command other than GET RESPONSE drops the pending response. */
  function DropPending(c: CardState, a: Apdu): CardState {
    if a.ins == 0xc0 then c else c.(pending := None)
  }

  /** The value of VCARD_7816_PTS, which vcard_process_apdu compares with the upper nibble of the class. */
  const PTS_TYPE := 2

  /** vcard_process_apdu */
  function Process(c: CardState, a: Apdu, raw: seq<byte>, env: Env): Outcome
    requires CardOk(c) && a.channel < MAX_CHANNEL
  {
    if a.classType == PTS_TYPE then Outcome(c, Done, Some(RawResponse(raw)), None)
    else
      var d := DropPending(c, a);
      var o := AppletProcess(d, a, env);
      if o.status != Next then o else VmProcess(d, a, env)
  }

  /** vreader_xfr_bytes up to the copy into the caller's buffer */
  function Xfr(c: CardState, raw: seq<byte>, env: Env): Outcome
    requires CardOk(c)
  {
    match Decode(raw)
    case Err(st) => Reply(c, st)
    case Ok(a) => Process(c, a, raw, env)
  }

  /** vcard_reset of a VM card: no applet, no pending response. Private state stays. */
  function Reset(c: CardState): CardState {
    c.(current := [None, None, None, None], pending := None)
  }
}
