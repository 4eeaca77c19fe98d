/** What is on a card made from certificates: the AID of every applet, the objects each of them has, what the applets
  * say about themselves, and which certificates are listed where. */
module CardContents {
  import opened Bytes
  import opened SimpleTlv
  import opened Card
  import opened CardSteps
  import opened CardInit
  import A = Acr
  import AcaTables
  import CacFile

  // ---- AIDs ----

  function PkiAid(i: byte): seq<byte> {
    [0xa0, 0x00, 0x00, 0x00, 0x79, 0x01, i]
  }

  /** The ACA and the CCC, the containers of section 7 of GSC-IS 2.1 and the CAC's own, the card manager and MSFT. */
  const OTHER_AIDS: seq<seq<byte>> :=
    [[0xa0, 0x00, 0x00, 0x00, 0x79, 0x03, 0x00], [0xa0, 0x00, 0x00, 0x01, 0x16, 0xdb, 0x00],
     [0xa0, 0x00, 0x00, 0x00, 0x79, 0x02, 0xf0], [0xa0, 0x00, 0x00, 0x00, 0x79, 0x02, 0xf1],
     [0xa0, 0x00, 0x00, 0x00, 0x79, 0x02, 0xf2], [0xa0, 0x00, 0x00, 0x00, 0x79, 0x02, 0xfb],
     [0xa0, 0x00, 0x00, 0x00, 0x79, 0x02, 0xfe], [0xa0, 0x00, 0x00, 0x00, 0x79, 0x02, 0xfd],
     [0xa0, 0x00, 0x00, 0x00, 0x79, 0x02, 0x00], [0xa0, 0x00, 0x00, 0x00, 0x79, 0x02, 0x01],
     [0xa0, 0x00, 0x00, 0x00, 0x79, 0x12, 0x01], [0xa0, 0x00, 0x00, 0x00, 0x79, 0x12, 0x02],
     [0xa0, 0x00, 0x00, 0x01, 0x16, 0x30, 0x00], [0xa0, 0x00, 0x00, 0x00, 0x03, 0x00, 0x00],
     [0xa0, 0x00, 0x00, 0x03, 0x97, 0x43, 0x49, 0x44, 0x5f, 0x01, 0x00]]

  /** Where the ACA, the CCC and the card manager stand behind the certificates' applets. */
  const ACA := 0
  const CCC := 1
  const MANAGER := 13

  function Aids(n: nat): (r: seq<seq<byte>>)
    requires n <= 10
    ensures |r| == n + |OTHER_AIDS|
  {
    seq(n, i requires 0 <= i < n => PkiAid(i)) + OTHER_AIDS
  }

  /** The AIDs of the applets behind the CCC. */
  const STATIC_AIDS: seq<seq<byte>> :=
    [A.CacAid(0x02, 0xf0), A.CacAid(0x02, 0xf1), A.CacAid(0x02, 0xf2), A.CacAid(0x02, 0xfb), A.CacAid(0x02, 0xfe),
     A.CacAid(0x02, 0xfd), A.CacAid(0x02, 0x00), A.CacAid(0x02, 0x01), A.CacAid(0x12, 0x01), A.CacAid(0x12, 0x02),
     ACCESS_CONTROL_AID, GP_AID, MSFT_AID]

  lemma EmptyAid(aid: seq<byte>, coids: seq<(byte, byte)>)
    requires |coids| <= 5
    ensures EmptyApplet(aid, coids).aid == aid
  {
    hide EmptyObjects;
  }

  lemma PassthroughAid(name: string, aid: seq<byte>)
    requires |aid| >= 2
    ensures PassthroughApplet(name, aid).aid == aid
  {
    hide ObjectEntry;
  }

  lemma StaticOnes(p: Parts)
    ensures |StaticApplets(p)| == 13 == |STATIC_AIDS|
    ensures forall k :: 0 <= k < 13 ==> StaticApplets(p)[k].aid == STATIC_AIDS[k]
  {
    hide EmptyApplet, PassthroughApplet, ACCESS_CONTROL_AID, GP_AID, MSFT_AID;
    EmptyAid(A.CacAid(0x02, 0xf0), []);
    EmptyAid(A.CacAid(0x02, 0xf1), []);
    EmptyAid(A.CacAid(0x02, 0xf2), []);
    EmptyAid(A.CacAid(0x02, 0xfb), [(0x02, 0xfb)]);
    EmptyAid(A.CacAid(0x02, 0xfe), [(0x02, 0xfe)]);
    EmptyAid(A.CacAid(0x02, 0xfd), [(0x02, 0xfd)]);
    PassthroughAid("Person Instance", A.CacAid(0x02, 0x00));
    PassthroughAid("Personnel", A.CacAid(0x02, 0x01));
    EmptyAid(A.CacAid(0x12, 0x01), [(0x12, 0x01)]);
    EmptyAid(A.CacAid(0x12, 0x02), [(0x12, 0x02)]);
    EmptyAid(ACCESS_CONTROL_AID, [(0x30, 0x00), (0x60, 0x10), (0x60, 0x30), (0x90, 0x00)]);
  }

  lemma StaticAids(p: Parts)
    ensures |OTHER_AIDS| == 15 && |StaticApplets(p)| == 13
    ensures ACA_AID == OTHER_AIDS[0] && CCC_AID == OTHER_AIDS[1] && GP_AID == OTHER_AIDS[13]
    ensures forall k :: 0 <= k < 13 ==> StaticApplets(p)[k].aid == OTHER_AIDS[2 + k]
  {
    hide StaticApplets;
    StaticOnes(p);
    assert OTHER_AIDS[2..] == STATIC_AIDS;
    forall k | 0 <= k < 13 ensures STATIC_AIDS[k] == OTHER_AIDS[2 + k] {
      assert OTHER_AIDS[2..][k] == OTHER_AIDS[2 + k];
    }
  }

  lemma OwnAids(n: nat, p: Parts, i: byte, cert: Cert)
    ensures AcaApplet(n, p.tables).aid == ACA_AID && CccApplet(n).aid == CCC_AID
    ensures PkiApplet(i, cert).Some? ==> PkiApplet(i, cert).value.aid == PkiAid(i)
  {
    hide CccBuffer;
  }

  /** Every applet of the card with its AID, in the order they were added. */
  lemma AidsOfTheCard(certs: seq<Cert>, p: Parts)
    requires InitialApplets(certs, p).Some?
    ensures |certs| <= 10
    ensures var all := InitialApplets(certs, p).value;
            |all| == |certs| + 15 == |Aids(|certs|)| && forall k :: 0 <= k < |all| ==> all[k].aid == Aids(|certs|)[k]
  {
    hide StaticApplets, OTHER_AIDS, PkiApplet, CccApplet, AcaApplet, PkiApplets, ACA_AID, CCC_AID, AppletOk;
    PkiAppletsOk(certs);
    StaticAids(p);
    var n, all := |certs|, InitialApplets(certs, p).value;
    forall k | 0 <= k < |all| ensures all[k].aid == Aids(n)[k] {
      AidAt(certs, p, k);
    }
  }

  lemma AidAt(certs: seq<Cert>, p: Parts, k: nat)
    requires InitialApplets(certs, p).Some? && k < |InitialApplets(certs, p).value| && |certs| <= 10
    requires |InitialApplets(certs, p).value| == |certs| + 15 && |OTHER_AIDS| == 15
    ensures InitialApplets(certs, p).value[k].aid == Aids(|certs|)[k]
  {
    hide StaticApplets, OTHER_AIDS, PkiApplet, CccApplet, AcaApplet, PkiApplets, ACA_AID, CCC_AID, AppletOk;
    PkiAppletsOk(certs);
    StaticAids(p);
    var n, all := |certs|, InitialApplets(certs, p).value;
    if k < n {
      OwnAids(n, p, k, certs[k]);
      assert Some(all[k]) == PkiApplet(k, certs[k]);
    } else if k >= n + 2 {
      assert all[k] == StaticApplets(p)[k - n - 2];
    } else {
      OwnAids(n, p, 0, Cert([], 0));
    }
  }

  /** Fourth byte, fifth, sixth and seventh tell the AIDs apart. */
  lemma OthersDiffer()
    ensures |OTHER_AIDS| == 15
    ensures forall i, j :: 0 <= i < j < 15 ==> OTHER_AIDS[i] != OTHER_AIDS[j]
    ensures forall i :: 0 <= i < 15 ==> |OTHER_AIDS[i]| >= 7
    ensures forall i :: 0 <= i < 15 ==> OTHER_AIDS[i][4] != 0x79 || OTHER_AIDS[i][5] != 0x01
  {
    forall i, j | 0 <= i < j < 15 ensures OTHER_AIDS[i] != OTHER_AIDS[j] {
      var x, y := OTHER_AIDS[i], OTHER_AIDS[j];
      assert x[3] != y[3] || x[4] != y[4] || x[5] != y[5] || x[6] != y[6];
    }
  }

  lemma AidsDiffer(n: nat, i: nat, j: nat)
    requires n <= 10 && i < n + 15 && j < n + 15 && i != j && |OTHER_AIDS| == 15
    ensures Aids(n)[i] != Aids(n)[j]
  {
    hide OTHER_AIDS;
    OthersDiffer();
    var a, b := Aids(n)[i], Aids(n)[j];
    if i < n {
      assert a == PkiAid(i) && a[4] == 0x79 && a[5] == 0x01 && a[6] == i;
    }
    if j < n {
      assert b == PkiAid(j) && b[4] == 0x79 && b[5] == 0x01 && b[6] == j;
    }
  }

  /** In every state of such a card each AID finds its own applet. */
  lemma AidIsFound(certs: seq<Cert>, p: Parts, d: CardState, k: nat)
    requires p.tables.Ok() && InitialApplets(certs, p).Some? && SameApplets(MadeCard(certs, p), d)
    requires k < |certs| + 15 && |OTHER_AIDS| == 15 && |certs| <= 10
    ensures FindApplet(d.applets, Aids(|certs|)[k]) == Some(k)
  {
    hide InitialApplets, Aids, CardOk, OTHER_AIDS;
    AidsOfTheCard(certs, p);
    var all, n := InitialApplets(certs, p).value, |certs|;
    forall j | 0 <= j < |d.applets| ensures d.applets[j].aid == Aids(n)[k] <==> j == k {
      assert SameIdentity(all[j], d.applets[j]);
      if j != k {
        AidsDiffer(n, j, k);
      }
    }
    OnlyOne(d.applets, Aids(n)[k], k);
  }

  lemma OnlyOne(applets: seq<Applet>, aid: seq<byte>, i: nat)
    requires i < |applets| && forall j :: 0 <= j < |applets| ==> (applets[j].aid == aid <==> j == i)
    ensures FindApplet(applets, aid) == Some(i)
  {
    var found := FindApplet(applets, aid);
    assert applets[i].aid == aid;
    assert found.Some?;
  }

  // ---- The applets themselves ----

  /** A certificate's applet: its own key, its one object, and files that hold the certificate. */
  lemma PkiContents(certs: seq<Cert>, p: Parts, i: nat)
    requires InitialApplets(certs, p).Some? && i < |certs|
    ensures var all := InitialApplets(certs, p).value;
            && i < |all| && all[i].kind == Pki([], i) && all[i].coids == [(0x01, i)] && |certs[i].der| < 0xffff
            && all[i].tagFile == Some(CacFile.FileOf(PkiBuffer(certs[i].der), TL))
            && all[i].valFile == Some(CacFile.FileOf(PkiBuffer(certs[i].der), Value))
  {
    PkiAppletsOk(certs);
    assert Some(InitialApplets(certs, p).value[i]) == PkiApplet(i, certs[i]);
  }

  /** What a certificate's applet says about its object: the two sizes are those of its files, as far as two bytes can
    * say. */
  lemma PkiDescribed(certs: seq<Cert>, p: Parts, i: nat)
    requires InitialApplets(certs, p).Some? && i < |certs|
    ensures var all := InitialApplets(certs, p).value;
            && i < |all| && all[i].tagFile.Some? && all[i].valFile.Some? && all[i].shortLen == 3
            && all[i].properties
               == PkiProperties(i, |all[i].tagFile.value|, |all[i].valFile.value|, certs[i].bits)
            && |all[i].tagFile.value| <= 12 && |all[i].valFile.value| == |certs[i].der| + 3
  {
    PkiAppletsOk(certs);
    PkiBufferLengths(certs[i].der);
    assert Some(InitialApplets(certs, p).value[i]) == PkiApplet(i, certs[i]);
  }

  /** The parts of a certificate's object entry. */
  function PkiEntry(i: byte, tagLen: nat, valLen: nat, size: byte): seq<Member> {
    [TagLeaf(0x41, [0x01, i]), TagLeaf(0x42, [0x00] + Le16(tagLen) + Le16(valLen)),
     TagLeaf(0x43, [0x06, size, 0x01, 0x01]), FLAG_26]
  }

  /** The size of a key as the card tells it, in units of 64 bits; 1024 bits when it is not known. */
  function KeySize(bits: int): (size: byte)
    ensures bits <= 0 ==> size * 64 == 1024
    ensures 0 < bits < 16384 ==> size * 64 <= bits < size * 64 + 64
  {
    if bits > 0 then bits / 8 / 8 % 0x100 else 0x10
  }

  lemma EntryOf(i: byte, tagLen: nat, valLen: nat, bits: int)
    ensures var l := PkiProperties(i, tagLen, valLen, bits);
            |l| == 5 && l[2] == Member(0x51, Compound(PkiEntry(i, tagLen, valLen, KeySize(bits))))
  {
    var size := KeySize(bits);
    var l := PkiProperties(i, tagLen, valLen, bits);
    assert [TagLeaf(0x41, [0x01, i]), TagLeaf(0x42, [0x00] + Le16(tagLen) + Le16(valLen))]
         + [TagLeaf(0x43, [0x06, size, 0x01, 0x01]), FLAG_26] == PkiEntry(i, tagLen, valLen, size);
    assert l[2] == Member(0x51, Compound(PkiEntry(i, tagLen, valLen, size)));
  }

  /** It is 20 bytes long, and parses to its parts. */
  lemma EntryParses(i: byte, tagLen: nat, valLen: nat, size: byte)
    ensures var l := PkiEntry(i, tagLen, valLen, size);
            Encodable(l, Both) && |Encode(l, Both)| == 20 && Parse(Encode(l, Both)) == l
  {
    hide Parse;
    var l := PkiEntry(i, tagLen, valLen, size);
    var a, b, c, d := l[0], l[1], l[2], l[3];
    assert l == ([a] + [b]) + ([c] + [d]);
    EncodeConcat([a] + [b], [c] + [d], Both);
    EncodeConcat([a], [b], Both);
    EncodeConcat([c], [d], Both);
    EncodeOne(a, Both);
    EncodeOne(b, Both);
    EncodeOne(c, Both);
    EncodeOne(d, Both);
    ParseInvertsEncode(l);
    LeavesKept(l);
    FlatTops(l);
  }

  lemma {:induction false} LeavesKept(l: seq<Member>)
    requires forall k :: 0 <= k < |l| ==> l[k].body.Leaf?
    ensures Kept(l) == l && Flat(l)
  {
    if l != [] {
      LeavesKept(l[1..]);
      assert l == [l[0]] + l[1..];
    }
  }

  /** The ACA knows how many certificates there are. */
  lemma AcaContents(certs: seq<Cert>, p: Parts)
    requires InitialApplets(certs, p).Some?
    ensures var all, n := InitialApplets(certs, p).value, |certs|;
            && n < |all| && all[n].kind == Aca(n, p.tables) && all[n].coids == [(0x03, 0x00)]
  {
    PkiAppletsOk(certs);
  }

  lemma CccContents(certs: seq<Cert>, p: Parts)
    requires InitialApplets(certs, p).Some?
    ensures var all, n := InitialApplets(certs, p).value, |certs|;
            && n + 1 < |all| && all[n + 1].kind == Plain && all[n + 1].coids == [(0xdb, 0x00)]
            && all[n + 1].tagFile == Some(CacFile.FileOf(CccBuffer(n), TL))
            && all[n + 1].valFile == Some(CacFile.FileOf(CccBuffer(n), Value))
  {
    PkiAppletsOk(certs);
  }

  // ---- The other applets ----

  /** The object ids of the ACA, the CCC and the containers behind them, in the order of their AIDs. */
  const OTHER_OBJECTS: seq<seq<(byte, byte)>> :=
    [[(0x03, 0x00)], [(0xdb, 0x00)], [], [], [], [(0x02, 0xfb)], [(0x02, 0xfe)], [(0x02, 0xfd)],
     [(0x02, 0x00)], [(0x02, 0x01)], [(0x12, 0x01)], [(0x12, 0x02)],
     [(0x30, 0x00), (0x60, 0x10), (0x60, 0x30), (0x90, 0x00)]]

  /** A container with nothing in it: both files are two zero bytes, an empty file with a true header. */
  predicate IsEmpty(a: Applet) {
    a.kind == Plain && a.tagFile == Some([0x00, 0x00]) && a.valFile == Some([0x00, 0x00])
  }

  lemma EmptyContents(aid: seq<byte>, coids: seq<(byte, byte)>)
    requires |coids| <= 5
    ensures IsEmpty(EmptyApplet(aid, coids)) && EmptyApplet(aid, coids).coids == coids
  {
    hide EmptyObjects;
  }

  lemma PassthroughContents(name: string, aid: seq<byte>)
    requires |aid| >= 2
    ensures var a := PassthroughApplet(name, aid);
            && a.kind == Passthrough(name) && a.tagFile.None? && a.valFile.None?
            && a.coids == [(aid[|aid| - 2], aid[|aid| - 1])]
  {
    hide ObjectEntry;
  }

  lemma StaticContents(p: Parts)
    ensures |StaticApplets(p)| == 13 == |OTHER_OBJECTS|
    ensures forall k :: 0 <= k < 11 ==> StaticApplets(p)[k].coids == OTHER_OBJECTS[2 + k]
    ensures forall k :: 0 <= k < 11 && k != 6 && k != 7 ==> IsEmpty(StaticApplets(p)[k])
    ensures StaticApplets(p)[6].kind == Passthrough("Person Instance")
    ensures StaticApplets(p)[7].kind == Passthrough("Personnel")
    ensures StaticApplets(p)[11].kind == DataObjects(p.gp, false)
    ensures StaticApplets(p)[12].kind == DataObjects(p.msft, true)
  {
    hide EmptyApplet, PassthroughApplet, IsEmpty, ACCESS_CONTROL_AID, GP_AID, MSFT_AID;
    EmptyContents(A.CacAid(0x02, 0xf0), []);
    EmptyContents(A.CacAid(0x02, 0xf1), []);
    EmptyContents(A.CacAid(0x02, 0xf2), []);
    EmptyContents(A.CacAid(0x02, 0xfb), [(0x02, 0xfb)]);
    EmptyContents(A.CacAid(0x02, 0xfe), [(0x02, 0xfe)]);
    EmptyContents(A.CacAid(0x02, 0xfd), [(0x02, 0xfd)]);
    PassthroughContents("Person Instance", A.CacAid(0x02, 0x00));
    PassthroughContents("Personnel", A.CacAid(0x02, 0x01));
    EmptyContents(A.CacAid(0x12, 0x01), [(0x12, 0x01)]);
    EmptyContents(A.CacAid(0x12, 0x02), [(0x12, 0x02)]);
    EmptyContents(ACCESS_CONTROL_AID, [(0x30, 0x00), (0x60, 0x10), (0x60, 0x30), (0x90, 0x00)]);
  }

  /** The containers, the card manager and the MSFT applet of a card. */
  lemma OtherContents(certs: seq<Cert>, p: Parts, k: nat)
    requires InitialApplets(certs, p).Some? && 2 <= k < 15
    ensures |certs| <= 10 && |InitialApplets(certs, p).value| == |certs| + 15 && |OTHER_OBJECTS| == 13
    ensures var a := InitialApplets(certs, p).value[|certs| + k];
            && (k < 13 ==> a.coids == OTHER_OBJECTS[k])
            && (if k == 8 then a.kind == Passthrough("Person Instance")
                else if k == 9 then a.kind == Passthrough("Personnel")
                else if k == 13 then a.kind == DataObjects(p.gp, false)
                else if k == 14 then a.kind == DataObjects(p.msft, true)
                else IsEmpty(a))
  {
    hide StaticApplets, IsEmpty, OTHER_OBJECTS;
    PkiAppletsOk(certs);
    StaticContents(p);
    assert InitialApplets(certs, p).value[|certs| + k] == StaticApplets(p)[k - 2];
  }

  /** An empty container describes one object for each of its ids, and says how many. */
  lemma EmptyDescribed(aid: seq<byte>, coids: seq<(byte, byte)>, j: nat)
    requires |coids| <= 5 && j < |coids|
    ensures var a := EmptyApplet(aid, coids);
            && a.shortLen == |a.properties| == 2 + |coids| && a.properties[1] == Member(0x40, Leaf([|coids|]))
            && a.properties[2 + j].tag == 0x50 && a.properties[2 + j].body.Compound?
            && a.properties[2 + j].body.children != []
            && a.properties[2 + j].body.children[0] == Member(0x41, Leaf([coids[j].0, coids[j].1]))
  {
    EmptyObjectAt(coids, j);
    hide EmptyObjects, ObjectEntry;
    var a := EmptyApplet(aid, coids);
    assert a.properties[2 + j] == EmptyObjects(coids)[j];
  }

  lemma {:induction false} EmptyObjectAt(coids: seq<(byte, byte)>, j: nat)
    requires j < |coids|
    ensures var m := EmptyObjects(coids)[j];
            && m.tag == 0x50 && m.body.Compound? && m.body.children != []
            && m.body.children[0] == Member(0x41, Leaf([coids[j].0, coids[j].1]))
  {
    if j > 0 {
      EmptyObjectAt(coids[1..], j - 1);
    }
  }

  // ---- Which certificates are listed ----

  /** The CCC's URL for certificate `i`. */
  function UrlOf(i: byte): Member {
    Member(0xf3, Leaf([0xa0, 0x00, 0x00, 0x00, 0x79, 0x04, 0x01, i, 0x01, i, 0, 0, 0, 0, 0, 0]))
  }

  /** The CCC lists exactly the certificates there are. */
  lemma CccListsCertificates(n: nat, i: nat)
    requires n <= 10 && i < 10
    ensures UrlOf(i) in Kept(CccBuffer(n)) <==> i < n
  {
    var urls := PkiUrls(n);
    CommonIsOther(i);
    KeptConcat(CCC_HEAD + COMMON_URLS + urls, CCC_END);
    KeptConcat(CCC_HEAD + COMMON_URLS, urls);
    KeptConcat(CCC_HEAD, COMMON_URLS);
    hide CCC_HEAD, COMMON_URLS, CCC_END, PkiUrls;
    UrlsListed(n, i);
  }

  lemma CommonIsOther(i: byte)
    ensures UrlOf(i) !in Kept(CCC_HEAD) && UrlOf(i) !in Kept(COMMON_URLS) && UrlOf(i) !in Kept(CCC_END)
  {
    forall m | m in CCC_HEAD || m in CCC_END ensures m != UrlOf(i) {
      assert m.tag != 0xf3;
    }
    forall m | m in COMMON_URLS ensures m != UrlOf(i) {
      assert m.body.value[5] == 1;
    }
    KeptIn(CCC_HEAD, UrlOf(i));
    KeptIn(COMMON_URLS, UrlOf(i));
    KeptIn(CCC_END, UrlOf(i));
  }

  /** A leaf is kept exactly if it is there. */
  lemma {:induction false} KeptIn(l: seq<Member>, m: Member)
    requires Flat(l) && m.body.Leaf?
    ensures m in Kept(l) <==> m in l
  {
    if l != [] {
      KeptIn(l[1..], m);
      assert l == [l[0]] + l[1..];
    }
  }

  lemma {:induction false} KeptConcat(a: seq<Member>, b: seq<Member>)
    ensures Kept(a + b) == Kept(a) + Kept(b)
  {
    if a == [] {
      assert a + b == b;
    } else {
      assert (a + b)[0] == a[0] && (a + b)[1..] == a[1..] + b;
      KeptConcat(a[1..], b);
    }
  }

  lemma UrlAt(n: nat, k: nat)
    requires n <= 10 && k < 10
    ensures PkiUrls(n)[k] == if k < n then UrlOf(k) else Member(0xf3, Skipped)
  {
  }

  lemma UrlsDiffer(i: byte, k: byte)
    requires UrlOf(i) == UrlOf(k)
    ensures i == k
  {
    assert UrlOf(i).body.value[7] == i && UrlOf(k).body.value[7] == k;
  }

  lemma UrlsListed(n: nat, i: nat)
    requires n <= 10 && i < 10
    ensures UrlOf(i) in Kept(PkiUrls(n)) <==> i < n
  {
    KeptIn(PkiUrls(n), UrlOf(i));
    UrlIn(n, i);
  }

  lemma UrlIn(n: nat, i: nat)
    requires n <= 10 && i < 10
    ensures UrlOf(i) in PkiUrls(n) <==> i < n
  {
    hide UrlOf;
    var urls := PkiUrls(n);
    UrlAt(n, i);
    assert UrlOf(i).body.Leaf? by {
      UrlIsLeaf(i);
    }
    if i < n {
      assert urls[i] == UrlOf(i);
    }
    forall k | 0 <= k < 10 && urls[k] == UrlOf(i) ensures i < n {
      UrlAt(n, k);
      if k < n {
        UrlsDiffer(k, i);
      }
    }
  }

  lemma UrlIsLeaf(i: byte)
    ensures UrlOf(i).body.Leaf?
  {
  }

  /** The service table of Get ACR lists exactly the certificates there are. */
  lemma ServicesListCertificates(n: nat, i: nat)
    requires n <= 10 && i < 10 && |A.SERVICE_TABLE| == 22
    ensures (exists j :: 0 <= j < n + 12 && A.InUse(A.SERVICE_TABLE, n)[j].aid == PkiAid(i)) <==> i < n
  {
    hide A.SERVICE_TABLE;
    AcaTables.PkiAids();
    AcaTables.ServiceAidsDiffer();
    var t := A.SERVICE_TABLE;
    assert t[i].aid == PkiAid(i);
    if i < n {
      assert A.InUse(t, n)[i] == t[i];
    }
    forall j | 0 <= j < n + 12 && A.InUse(t, n)[j].aid == PkiAid(i) ensures i < n {
      var k := if j < n then j else j - n + 10;
      assert A.InUse(t, n)[j] == t[k];
    }
  }
}
