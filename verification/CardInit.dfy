/** The card cac_card_init, gp_card_init and msft_card_init put together (src/cac.c, src/gp.c, src/msft.c,
  * called in this order from src/vcard_emul_type.c). */
module CardInit {
  import opened Bytes
  import opened SimpleTlv
  import opened Card
  import opened VCards
  import AcaTables
  import CacFile
  import A = Acr
  import SimpleTlvCodec

  /** A certificate, and the size of its key in bits (not positive when it is not known). */
  datatype Cert = Cert(der: seq<byte>, bits: int)

  function TagLeaf(tag: byte, v: seq<byte>): Member {
    Member(tag, Leaf(v))
  }

  const APPLET_INFO := TagLeaf(0x01, [0x10, 0x02, 0x06, 0x02, 0x03])
  const FLAG_26 := TagLeaf(0x26, [0x01])
  const ACA_AID: seq<byte> := [0xa0, 0x00, 0x00, 0x00, 0x79, 0x03, 0x00]
  const CCC_AID: seq<byte> := [0xa0, 0x00, 0x00, 0x01, 0x16, 0xdb, 0x00]
  const ACCESS_CONTROL_AID: seq<byte> := [0xa0, 0x00, 0x00, 0x01, 0x16, 0x30, 0x00]
  const MSFT_AID: seq<byte> := [0xa0, 0x00, 0x00, 0x03, 0x97, 0x43, 0x49, 0x44, 0x5f, 0x01, 0x00]

  /** One object with its id, buffer properties and whatever else describes it. */
  function ObjectEntry(tag: byte, coid: (byte, byte), buffers: seq<byte>, more: seq<Member>): Member {
    Member(tag, Compound([TagLeaf(0x41, [coid.0, coid.1]), TagLeaf(0x42, buffers)] + more))
  }

  /** A skipped member, or a leaf with a proper tag and at most 32 bytes. */
  predicate Small(m: Member) {
    match m.body
    case Skipped => true
    case Leaf(v) => m.tag != 0x00 && m.tag != 0xff && |v| <= 32
    case Compound(_) => false
  }

  /** Lists of small members are always encodable. */
  lemma SmallEncodable(l: seq<Member>, mode: Mode)
    requires (forall i :: 0 <= i < |l| ==> Small(l[i])) && |l| <= 40
    ensures Encodable(l, mode) && Splittable(l, mode) && |Encode(l, mode)| <= 34 * |l|
  {
    SmallLength(l, mode);
  }

  lemma {:induction false} SmallLength(l: seq<Member>, mode: Mode)
    requires forall i :: 0 <= i < |l| ==> Small(l[i])
    ensures |Encode(l, mode)| <= 34 * |l|
  {
    if l != [] {
      SmallLength(l[1..], mode);
      assert |EncodeMember(l[0], mode)| <= 34;
    }
  }

  /** The buffer of a PKI applet: not compressed, the certificate, no MSCUID, no error detection code. */
  function PkiBuffer(der: seq<byte>): seq<Member> {
    [TagLeaf(0x71, [0x00]), TagLeaf(0x70, der), TagLeaf(0x72, []), TagLeaf(0xfe, [])]
  }

  lemma EncodeOne(m: Member, mode: Mode)
    ensures Encode([m], mode) == EncodeMember(m, mode)
  {
    assert Encode([m], mode) == EncodeMember(m, mode) + Encode([], mode);
  }

  lemma EncodePkiBuffer(der: seq<byte>, mode: Mode)
    ensures |Encode(PkiBuffer(der), mode)| == |Record(0x71, [0x00], mode)| + |Record(0x70, der, mode)|
                                              + |Record(0x72, [], mode)| + |Record(0xfe, [], mode)|
  {
    var a, b, c, d := TagLeaf(0x71, [0x00]), TagLeaf(0x70, der), TagLeaf(0x72, []), TagLeaf(0xfe, []);
    assert PkiBuffer(der) == ([a] + [b]) + ([c] + [d]);
    EncodeConcat([a] + [b], [c] + [d], mode);
    EncodeConcat([a], [b], mode);
    EncodeConcat([c], [d], mode);
    EncodeOne(a, mode);
    EncodeOne(b, mode);
    EncodeOne(c, mode);
    EncodeOne(d, mode);
  }

  lemma PkiBufferLengths(der: seq<byte>)
    ensures |Encode(PkiBuffer(der), TL)| == 6 + TagLengthSize(|der|)
    ensures |Encode(PkiBuffer(der), Value)| == 1 + |der|
    ensures Encodable(PkiBuffer(der), TL) <==> |der| < 0xffff
  {
    EncodePkiBuffer(der, TL);
    EncodePkiBuffer(der, Value);
    assert PkiBuffer(der)[1].body.value == der;
  }

  /** Both files of a PKI applet exist, and state their true lengths, exactly when the certificate is shorter
    * than 65535 bytes. */
  lemma PkiFilesExist(der: seq<byte>)
    ensures CacFile.Creatable(PkiBuffer(der), TL) <==> |der| < 0xffff
    ensures CacFile.Creatable(PkiBuffer(der), Value)
    ensures |der| < 0xffff <==> |Encode(PkiBuffer(der), Value)| <= 0xffff
  {
    PkiBufferLengths(der);
  }

  function PkiProperties(i: byte, tagLen: nat, valLen: nat, bits: int): seq<Member> {
    var size := if bits > 0 then bits / 8 / 8 % 0x100 else 0x10;
    [APPLET_INFO, TagLeaf(0x40, [0x01]),
     ObjectEntry(0x51, (0x01, i), [0x00] + Le16(tagLen) + Le16(valLen),
                 [TagLeaf(0x43, [0x06, size, 0x01, 0x01]), FLAG_26]),
     TagLeaf(0x39, [0x00]), TagLeaf(0x3a, ACA_AID)]
  }

  /** cac_new_pki_applet */
  function PkiApplet(i: byte, cert: Cert): (r: Option<Applet>)
    ensures r.Some? <==> |cert.der| < 0xffff
  {
    PkiFilesExist(cert.der);
    if !CacFile.Creatable(PkiBuffer(cert.der), TL) then None
    else
      var tag, val := CacFile.FileOf(PkiBuffer(cert.der), TL), CacFile.FileOf(PkiBuffer(cert.der), Value);
      Some(Applet([0xa0, 0x00, 0x00, 0x00, 0x79, 0x01, i], Pki([], i), Some(tag), Some(val),
                  PkiProperties(i, |tag|, |val|, cert.bits), 3, [(0x01, i)]))
  }

  const ACA_PROPERTIES :=
    [TagLeaf(0x01, [0x10, 0x02, 0x06, 0x02, 0x02]),
     TagLeaf(0x23, [0x20, 0x11, 0, 0, 0, 0, 0, 0, 0, 0, 0, 0x58]),
     TagLeaf(0x2a, [0x02, 0x00]), TagLeaf(0x2b, [0xa0, 0x00, 0x00, 0x00, 0x79]),
     TagLeaf(0x22, [0x00, 0x00, 0x00, 0xda, 0x01, 0xb4, 0x03, 0x30, 0x00, 0x00, 0x00, 0x70, 0x00, 0x51, 0x02, 0x9d]),
     TagLeaf(0x2c, [0x00]), TagLeaf(0x20, [0x08, 0x01]), TagLeaf(0x21, [0x0f]), TagLeaf(0x32, [0x03, 0x03, 0x03, 0x03]),
     TagLeaf(0x30, [0x08]), TagLeaf(0x31, [0x06, 0x08, 0x00, 0x00]), TagLeaf(0x24, [0xff]), TagLeaf(0x25, [0x01, 0x00]),
     FLAG_26]

  /** cac_new_aca_applet */
  function AcaApplet(pki: nat, tables: AcaTables.RawTables): Applet {
    Applet(ACA_AID, Aca(pki, tables), None, None, ACA_PROPERTIES, 1, [(0x03, 0x00)])
  }

  /** Where an applet and its object are found: RID, application type, object and applet id. */
  function CardUrl(rid: seq<byte>, kind: byte, x: byte, y: byte, z: byte, w: byte): Member
    requires |rid| == 5
  {
    TagLeaf(0xf3, rid + [kind, x, y, z, w, 0, 0, 0, 0, 0, 0])
  }

  const CAC_RID: seq<byte> := [0xa0, 0x00, 0x00, 0x00, 0x79]
  const GSC_RID: seq<byte> := [0xa0, 0x00, 0x00, 0x01, 0x16]

  const COMMON_URLS: seq<Member> :=
    [CardUrl(CAC_RID, 1, 0x02, 0xfb, 0x02, 0xfb), CardUrl(CAC_RID, 1, 0x02, 0xfe, 0x02, 0xfe),
     CardUrl(CAC_RID, 1, 0x02, 0xfd, 0x02, 0xfd), CardUrl(CAC_RID, 1, 0x02, 0x00, 0x02, 0x00),
     CardUrl(CAC_RID, 1, 0x02, 0x01, 0x02, 0x01), CardUrl(GSC_RID, 1, 0x30, 0x00, 0x30, 0x00),
     CardUrl(GSC_RID, 1, 0x60, 0x10, 0x30, 0x00), CardUrl(GSC_RID, 1, 0x60, 0x30, 0x30, 0x00),
     CardUrl(GSC_RID, 1, 0x90, 0x00, 0x30, 0x00), CardUrl(CAC_RID, 1, 0x12, 0x01, 0x12, 0x01),
     CardUrl(CAC_RID, 1, 0x12, 0x02, 0x12, 0x02)]

  const CCC_HEAD: seq<Member> :=
    [TagLeaf(0xf0, [0xa0, 0x00, 0x00, 0x00, 0x79, 0x03, 0x02, 0x40, 0x70, 0x50, 0x72, 0x36, 0x0e, 0x00, 0x00, 0x58,
                    0xbd, 0x00, 0x2c, 0x19, 0xb5]),
     TagLeaf(0xf1, [0x21]), TagLeaf(0xf2, [0x21])]

  const CCC_END: seq<Member> :=
    [TagLeaf(0xf4, [0x00]), TagLeaf(0xf5, [0x10]),
     TagLeaf(0xf6, [0x07, 0xa0, 0x00, 0x00, 0x00, 0x79, 0x03, 0x00, 0, 0, 0, 0, 0, 0, 0, 0, 0]),
     TagLeaf(0xf7, []), TagLeaf(0xfa, []), TagLeaf(0xfb, []), TagLeaf(0xfc, []), TagLeaf(0xfd, []), TagLeaf(0xfe, [])]

  /** The URLs of the PKI applets: a slot for each, skipped where there is no certificate. */
  function PkiUrls(certs: nat): (r: seq<Member>)
    ensures |r| == A.PKI_SLOTS && forall i :: 0 <= i < |r| ==> Small(r[i])
  {
    seq(A.PKI_SLOTS, i requires 0 <= i < A.PKI_SLOTS =>
          if i < certs then CardUrl(CAC_RID, 4, 0x01, i, 0x01, i) else Member(0xf3, Skipped))
  }

  function CccBuffer(certs: nat): seq<Member> {
    CCC_HEAD + COMMON_URLS + PkiUrls(certs) + CCC_END
  }

  /** Both files of the CCC can always be made, and state their true lengths. */
  lemma CccFilesExist(certs: nat)
    ensures CacFile.Creatable(CccBuffer(certs), TL) && CacFile.Creatable(CccBuffer(certs), Value)
    ensures |Encode(CccBuffer(certs), TL)| <= 0xffff && |Encode(CccBuffer(certs), Value)| <= 0xffff
    ensures Flat(CccBuffer(certs))
  {
    CccIsSmall(certs);
    var l := CccBuffer(certs);
    SmallEncodable(l, TL);
    SmallEncodable(l, Value);
    EncodeBound(l, 0, TL);
    EncodeBound(l, 0, Value);
  }

  lemma CccIsSmall(certs: nat)
    ensures var l := CccBuffer(certs);
            && |l| == 33 && (forall i :: 0 <= i < |l| ==> Small(l[i]))
            && |EncodeMember(l[0], TL)| == 2 && |EncodeMember(l[0], Value)| == 21
  {
    assert CccBuffer(certs)[0] == CCC_HEAD[0];
    assert forall i :: 0 <= i < |CCC_HEAD| ==> Small(CCC_HEAD[i]);
    assert forall i :: 0 <= i < |COMMON_URLS| ==> Small(COMMON_URLS[i]);
    assert forall i :: 0 <= i < |CCC_END| ==> Small(CCC_END[i]);
  }

  /** cac_new_ccc_applet */
  function CccApplet(certs: nat): Applet {
    var tag, val := CacFile.FileOf(CccBuffer(certs), TL), CacFile.FileOf(CccBuffer(certs), Value);
    Applet(CCC_AID, Plain, Some(tag), Some(val),
           [APPLET_INFO, TagLeaf(0x40, [0x01]),
            ObjectEntry(0x50, (0xdb, 0x00), [0x00] + Le16(|tag|) + Le16(|val|), []),
            TagLeaf(0x39, [0x00]), TagLeaf(0x3a, ACA_AID)], 3, [(0xdb, 0x00)])
  }

  const NO_FILE: seq<byte> := [0x00, 0x00]
  const ARBITRARY_SIZES: seq<byte> := [0x60, 0x00, 0x60, 0x00]

  function EmptyObjects(coids: seq<(byte, byte)>): (r: seq<Member>)
    ensures |r| == |coids|
  {
    if coids == [] then []
    else [ObjectEntry(0x50, coids[0], [0x01] + ARBITRARY_SIZES, [FLAG_26])] + EmptyObjects(coids[1..])
  }

  /** cac_new_empty_applet */
  function EmptyApplet(aid: seq<byte>, coids: seq<(byte, byte)>): Applet
    requires |coids| <= 5
  {
    var properties := [APPLET_INFO, TagLeaf(0x40, [|coids|])] + EmptyObjects(coids);
    Applet(aid, Plain, Some(NO_FILE), Some(NO_FILE), properties, 2 + |coids|, coids)
  }

  /** cac_new_passthrough_applet: the object id is the end of the AID, the files come later. */
  function PassthroughApplet(name: string, aid: seq<byte>): Applet
    requires |aid| >= 2
  {
    var coid := (aid[|aid| - 2], aid[|aid| - 1]);
    Applet(aid, Passthrough(name), None, None,
           [APPLET_INFO, TagLeaf(0x40, [0x01]), ObjectEntry(0x50, coid, [0x00] + ARBITRARY_SIZES, [FLAG_26])],
           3, [coid])
  }

  /** gp_card_init and msft_card_init */
  function DataApplet(aid: seq<byte>, answers: map<int, seq<byte>>, windows: bool): Applet {
    Applet(aid, DataObjects(answers, windows), None, None, [], 0, [])
  }

  /** What the constant tables and the platform contribute. */
  datatype Parts = Parts(tables: AcaTables.RawTables, gp: map<int, seq<byte>>, msft: map<int, seq<byte>>)

  function PkiApplets(certs: seq<Cert>): (r: Option<seq<Applet>>)
    requires |certs| <= A.PKI_SLOTS
    ensures r.Some? ==> |r.value| == |certs|
  {
    if certs == [] then Some([])
    else
      var n := |certs| - 1;
      var first, last := PkiApplets(certs[..n]), PkiApplet(n, certs[n]);
      if first.None? || last.None? then None else Some(first.value + [last.value])
  }

  function EmptyCac(x: byte, y: byte, coids: seq<(byte, byte)>): Applet
    requires |coids| <= 5
  {
    EmptyApplet(A.CacAid(x, y), coids)
  }

  /** The applets behind the PKI applets and the CCC, in the order they are added. */
  function StaticApplets(p: Parts): seq<Applet> {
    [EmptyCac(0x02, 0xf0, []), EmptyCac(0x02, 0xf1, []), EmptyCac(0x02, 0xf2, []),
     EmptyCac(0x02, 0xfb, [(0x02, 0xfb)]), EmptyCac(0x02, 0xfe, [(0x02, 0xfe)]), EmptyCac(0x02, 0xfd, [(0x02, 0xfd)]),
     PassthroughApplet("Person Instance", A.CacAid(0x02, 0x00)), PassthroughApplet("Personnel", A.CacAid(0x02, 0x01)),
     EmptyCac(0x12, 0x01, [(0x12, 0x01)]), EmptyCac(0x12, 0x02, [(0x12, 0x02)]),
     EmptyApplet(ACCESS_CONTROL_AID, [(0x30, 0x00), (0x60, 0x10), (0x60, 0x30), (0x90, 0x00)]),
     DataApplet(GP_AID, p.gp, false), DataApplet(MSFT_AID, p.msft, true)]
  }

  /** All applets, or None when the card cannot be made. */
  function InitialApplets(certs: seq<Cert>, p: Parts): (r: Option<seq<Applet>>) {
    if |certs| > A.PKI_SLOTS then None
    else
      var pki := PkiApplets(certs);
      if pki.None? then None
      else Some(pki.value + [AcaApplet(|certs|, p.tables), CccApplet(|certs|)] + StaticApplets(p))
  }

  function InitialCard(applets: seq<Applet>): CardState {
    CardState(applets, [None, None, None, None], None, false)
  }

  // ---- The initial card is valid ----

  lemma ObjectEntryEncodable(tag: byte, coid: (byte, byte), buffers: seq<byte>, more: seq<Member>)
    requires tag != 0x00 && tag != 0xff && |buffers| <= 16 && |more| <= 2
    requires forall i :: 0 <= i < |more| ==> Small(more[i])
    ensures MemberEncodable(ObjectEntry(tag, coid, buffers, more))
  {
    SmallEncodable([TagLeaf(0x41, [coid.0, coid.1]), TagLeaf(0x42, buffers)] + more, Both);
  }

  lemma PkiAppletOk(i: byte, cert: Cert)
    requires PkiApplet(i, cert).Some?
    ensures AppletOk(PkiApplet(i, cert).value)
  {
    var a := PkiApplet(i, cert).value;
    var size := if cert.bits > 0 then cert.bits / 8 / 8 % 0x100 else 0x10;
    ObjectEntryEncodable(0x51, (0x01, i), [0x00] + Le16(|a.tagFile.value|) + Le16(|a.valFile.value|),
                         [TagLeaf(0x43, [0x06, size, 0x01, 0x01]), FLAG_26]);
    forall k | 0 <= k < |a.properties| ensures MemberEncodable(a.properties[k]) {
    }
  }

  lemma CccAppletOk(certs: nat)
    ensures AppletOk(CccApplet(certs))
  {
    hide CccBuffer;
    var a := CccApplet(certs);
    ObjectEntryEncodable(0x50, (0xdb, 0x00), [0x00] + Le16(|a.tagFile.value|) + Le16(|a.valFile.value|), []);
    forall k | 0 <= k < |a.properties| ensures MemberEncodable(a.properties[k]) {
    }
  }

  lemma AcaAppletOk(pki: nat, tables: AcaTables.RawTables)
    requires pki <= A.PKI_SLOTS && tables.Ok()
    ensures AppletOk(AcaApplet(pki, tables))
  {
    SmallEncodable(ACA_PROPERTIES, Both);
  }

  lemma {:induction false} EmptyObjectsEncodable(coids: seq<(byte, byte)>)
    ensures Encodable(EmptyObjects(coids), Both)
  {
    if coids != [] {
      EmptyObjectsEncodable(coids[1..]);
      ObjectEntryEncodable(0x50, coids[0], [0x01] + ARBITRARY_SIZES, [FLAG_26]);
    }
  }

  lemma EmptyAppletOk(aid: seq<byte>, coids: seq<(byte, byte)>)
    requires |aid| <= 16 && |coids| <= 5
    ensures AppletOk(EmptyApplet(aid, coids))
  {
    EmptyObjectsEncodable(coids);
    SmallEncodable([APPLET_INFO, TagLeaf(0x40, [|coids|])], Both);
    SimpleTlvCodec.MergeEncodable([APPLET_INFO, TagLeaf(0x40, [|coids|])], EmptyObjects(coids));
  }

  lemma PassthroughAppletOk(name: string, aid: seq<byte>)
    requires 2 <= |aid| <= 16
    ensures AppletOk(PassthroughApplet(name, aid))
  {
    var a := PassthroughApplet(name, aid);
    ObjectEntryEncodable(0x50, (aid[|aid| - 2], aid[|aid| - 1]), [0x00] + ARBITRARY_SIZES, [FLAG_26]);
    forall k | 0 <= k < |a.properties| ensures MemberEncodable(a.properties[k]) {
    }
  }

  lemma DataAppletOk(aid: seq<byte>, answers: map<int, seq<byte>>, windows: bool)
    requires |aid| <= 16
    ensures AppletOk(DataApplet(aid, answers, windows))
  {
  }

  lemma StaticAppletsOk(p: Parts)
    ensures forall k :: 0 <= k < |StaticApplets(p)| ==> AppletOk(StaticApplets(p)[k])
    ensures forall k :: 0 <= k < |StaticApplets(p)| ==> !StaticApplets(p)[k].kind.Pki?
  {
    hide AppletOk;
    EmptyAppletOk(A.CacAid(0x02, 0xf0), []);
    EmptyAppletOk(A.CacAid(0x02, 0xf1), []);
    EmptyAppletOk(A.CacAid(0x02, 0xf2), []);
    EmptyAppletOk(A.CacAid(0x02, 0xfb), [(0x02, 0xfb)]);
    EmptyAppletOk(A.CacAid(0x02, 0xfe), [(0x02, 0xfe)]);
    EmptyAppletOk(A.CacAid(0x02, 0xfd), [(0x02, 0xfd)]);
    PassthroughAppletOk("Person Instance", A.CacAid(0x02, 0x00));
    PassthroughAppletOk("Personnel", A.CacAid(0x02, 0x01));
    EmptyAppletOk(A.CacAid(0x12, 0x01), [(0x12, 0x01)]);
    EmptyAppletOk(A.CacAid(0x12, 0x02), [(0x12, 0x02)]);
    EmptyAppletOk(ACCESS_CONTROL_AID, [(0x30, 0x00), (0x60, 0x10), (0x60, 0x30), (0x90, 0x00)]);
    DataAppletOk(GP_AID, p.gp, false);
    DataAppletOk(MSFT_AID, p.msft, true);
  }

  lemma PkiAppletOkIfMade(i: byte, cert: Cert)
    ensures PkiApplet(i, cert).Some? ==> AppletOk(PkiApplet(i, cert).value)
  {
    if PkiApplet(i, cert).Some? {
      PkiAppletOk(i, cert);
    }
  }

  lemma {:induction false} PkiAppletsOk(certs: seq<Cert>)
    requires |certs| <= A.PKI_SLOTS
    ensures PkiApplets(certs).Some? <==> forall i :: 0 <= i < |certs| ==> |certs[i].der| < 0xffff
    ensures PkiApplets(certs).Some? ==> forall i :: 0 <= i < |certs| ==>
              AppletOk(PkiApplets(certs).value[i]) && Some(PkiApplets(certs).value[i]) == PkiApplet(i, certs[i])
  {
    hide PkiApplet, AppletOk;
    if certs != [] {
      var n := |certs| - 1;
      PkiAppletsOk(certs[..n]);
      PkiAppletOkIfMade(n, certs[n]);
    }
  }

  /** A card can be made exactly when there are at most ten certificates, all shorter than 65535 bytes. */
  lemma CardCanBeMade(certs: seq<Cert>, p: Parts)
    ensures InitialApplets(certs, p).Some? <==>
            |certs| <= A.PKI_SLOTS && forall i :: 0 <= i < |certs| ==> |certs[i].der| < 0xffff
  {
    if |certs| <= A.PKI_SLOTS {
      PkiAppletsOk(certs);
    }
  }

  lemma AllOk(a: seq<Applet>, b: seq<Applet>, c: seq<Applet>)
    requires forall i :: 0 <= i < |a| ==> AppletOk(a[i])
    requires forall i :: 0 <= i < |b| ==> AppletOk(b[i])
    requires forall i :: 0 <= i < |c| ==> AppletOk(c[i])
    ensures forall i :: 0 <= i < |a + b + c| ==> AppletOk((a + b + c)[i])
  {
  }

  /** Then it is valid, and the PKI applets come first, with empty sign buffers. */
  lemma InitialCardOk(certs: seq<Cert>, p: Parts)
    requires p.tables.Ok() && InitialApplets(certs, p).Some?
    ensures var c := InitialCard(InitialApplets(certs, p).value);
            && CardOk(c)
            && forall i :: 0 <= i < |certs| ==> i < |c.applets| && Some(c.applets[i]) == PkiApplet(i, certs[i])
  {
    hide AppletOk, StaticApplets, PkiApplet, CccApplet, AcaApplet;
    var pki, ccc := PkiApplets(certs).value, CccApplet(|certs|);
    PkiAppletsOk(certs);
    CccAppletOk(|certs|);
    AcaAppletOk(|certs|, p.tables);
    StaticAppletsOk(p);
    AllOk(pki, [AcaApplet(|certs|, p.tables), ccc], StaticApplets(p));
  }

  /** The card made from these certificates. */
  function MadeCard(certs: seq<Cert>, p: Parts): (c: CardState)
    requires p.tables.Ok() && InitialApplets(certs, p).Some?
    ensures CardOk(c)
  {
    InitialCardOk(certs, p);
    InitialCard(InitialApplets(certs, p).value)
  }

  // ---- Making the card ----

  /** cac_new_pki_applet: both files are made from the certificate. */
  method NewPkiApplet(i: byte, cert: Cert) returns (r: Option<Applet>)
    ensures r == PkiApplet(i, cert)
  {
    PkiFilesExist(cert.der);
    var buffer := PkiBuffer(cert.der);
    var tag, tagLen := CacFile.CreateFile(buffer, TL);
    if tagLen == 0 {
      return None;
    }
    var val, valLen := CacFile.CreateFile(buffer, Value);
    if valLen == 0 {
      return None;
    }
    return Some(Applet([0xa0, 0x00, 0x00, 0x00, 0x79, 0x01, i], Pki([], i), Some(tag[..]), Some(val[..]),
                       PkiProperties(i, tagLen, valLen, cert.bits), 3, [(0x01, i)]));
  }

  /** cac_new_ccc_applet: making its files never fails. */
  method NewCccApplet(certs: nat) returns (r: Applet)
    ensures r == CccApplet(certs)
  {
    hide CccBuffer;
    CccFilesExist(certs);
    var buffer := CccBuffer(certs);
    var tag, tagLen := CacFile.CreateFile(buffer, TL);
    var val, valLen := CacFile.CreateFile(buffer, Value);
    r := Applet(CCC_AID, Plain, Some(tag[..]), Some(val[..]),
                [APPLET_INFO, TagLeaf(0x40, [0x01]),
                 ObjectEntry(0x50, (0xdb, 0x00), [0x00] + Le16(tagLen) + Le16(valLen), []),
                 TagLeaf(0x39, [0x00]), TagLeaf(0x3a, ACA_AID)], 3, [(0xdb, 0x00)]);
  }

  lemma PkiAppletsSnoc(certs: seq<Cert>, i: nat)
    requires i < |certs| <= A.PKI_SLOTS
    ensures PkiApplets(certs[..i + 1]) ==
            var first, last := PkiApplets(certs[..i]), PkiApplet(i, certs[i]);
            if first.None? || last.None? then None else Some(first.value + [last.value])
    ensures PkiApplet(i, certs[i]).None? ==> PkiApplets(certs).None?
  {
    hide PkiApplet, AppletOk;
    assert certs[..i + 1][..i] == certs[..i];
    if PkiApplet(i, certs[i]).None? {
      OneFailsAll(certs, i);
    }
  }

  lemma {:induction false} OneFailsAll(certs: seq<Cert>, i: nat)
    requires i < |certs| <= A.PKI_SLOTS && PkiApplet(i, certs[i]).None?
    ensures PkiApplets(certs).None?
  {
    var n := |certs| - 1;
    if i < n {
      OneFailsAll(certs[..n], i);
    }
  }

  /** cac_card_init, then gp_card_init and msft_card_init, on a new card. */
  method InitCard(card: VCard, certs: seq<Cert>, p: Parts) returns (st: VStatus)
    requires card.Ready() && card.View() == InitialCard([]) && p.tables.Ok()
    modifies card`applets
    ensures st == if InitialApplets(certs, p).Some? then Done else Fail
    ensures st == Done ==> card.Ready() && card.View() == InitialCard(InitialApplets(certs, p).value)
  {
    if |certs| > A.PKI_SLOTS {
      return Fail;
    }
    st := AddPkiApplets(card, certs);
    if st == Fail {
      return;
    }
    AcaAppletOk(|certs|, p.tables);
    card.AddApplet(AcaApplet(|certs|, p.tables));
    CccAppletOk(|certs|);
    var ccc := NewCccApplet(|certs|);
    card.AddApplet(ccc);
    ghost var before := card.applets;
    AddAll(card, StaticApplets(p), p);
    assert before == PkiApplets(certs).value + [AcaApplet(|certs|, p.tables), ccc];
  }

  method AddPkiApplets(card: VCard, certs: seq<Cert>) returns (st: VStatus)
    requires card.Ready() && card.View() == InitialCard([]) && |certs| <= A.PKI_SLOTS
    modifies card`applets
    ensures st == if PkiApplets(certs).Some? then Done else Fail
    ensures st == Done ==> card.Ready() && card.View() == InitialCard(PkiApplets(certs).value)
  {
    hide PkiApplet, PkiApplets, AppletOk;
    EmptyRow();
    assert certs[..0] == [];
    for i := 0 to |certs|
      invariant PkiApplets(certs[..i]).Some?
      invariant card.Ready() && card.View() == InitialCard(PkiApplets(certs[..i]).value)
    {
      PkiAppletsSnoc(certs, i);
      PkiAppletOkIfMade(i, certs[i]);
      var applet := NewPkiApplet(i, certs[i]);
      if applet.None? {
        return Fail;
      }
      card.AddApplet(applet.value);
    }
    assert certs[..|certs|] == certs;
    return Done;
  }

  lemma EmptyRow()
    ensures PkiApplets([]) == Some([])
  {
  }

  method AddAll(card: VCard, l: seq<Applet>, p: Parts)
    requires card.Ready() && l == StaticApplets(p)
    modifies card`applets
    ensures card.Ready() && card.View() == old(card.View()).(applets := old(card.applets) + l)
  {
    hide StaticApplets, AppletOk;
    StaticAppletsOk(p);
    ghost var before := card.View();
    assert before.applets + l[..0] == before.applets;
    for i := 0 to |l|
      invariant card.Ready() && card.View() == before.(applets := before.applets + l[..i])
    {
      Assoc(before.applets, l[..i], [l[i]]);
      assert l[..i + 1] == l[..i] + [l[i]];
      card.AddApplet(l[i]);
    }
    assert l[..|l|] == l;
  }
}
