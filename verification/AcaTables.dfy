/** What the ACA applet answers to Get ACR (section 5.3.3.5 of GSC-IS 2.1): lists of SimpleTLV records put
  * together from the tables of src/cac-aca.c. Where the code copies raw struct memory into an entry, the bytes that
  * depend on the layout of the struct are given from outside. */
module AcaTables {
  import opened Bytes
  import opened SimpleTlv
  import A = Acr
  import X = AcaExtended

  /** The slots of the provider table: an id and an AID each. Three are filled in, the others are zero. */
  const AMP_TABLE: seq<A.Service> :=
    [A.Service(0x1f, A.CacAid(0x03, 0x00)), A.Service(0x1e, A.CacAid(0x03, 0x00)),
     A.Service(0x1d, A.CacAid(0x03, 0x00)), A.Service(0x00, []), A.Service(0x00, [])]
  const NUM_AMPS := 3

  const AID_TAG: byte := 0x92
  const CCC_AID: seq<byte> := [0xa0, 0x00, 0x00, 0x01, 0x16, 0xdb, 0x00]

  /** The layout-dependent bytes: what follows the three one-byte fields at the start of an ACR entry, and the copy
    * that stands where a provider's or a service's AID should. That copy is as long as the AID and, if it is not
    * empty, begins with the first field, the id. */
  datatype RawTables = RawTables(acr: seq<seq<byte>>, amp: seq<seq<byte>>, services: seq<seq<byte>>) {
    predicate Ok() {
      && |acr| == |X.ACR_TABLE|
      && (forall i :: 0 <= i < |acr| ==> |acr[i]| == 2 * |X.ACR_TABLE[i].methods|)
      && |amp| == |AMP_TABLE|
      && (forall i :: 0 <= i < |amp| ==>
            |amp[i]| == |AMP_TABLE[i].aid| && (amp[i] != [] ==> amp[i][0] == AMP_TABLE[i].id))
      && |services| == |A.SERVICE_TABLE|
      && (forall i :: 0 <= i < |services| ==>
            |services[i]| == |A.SERVICE_TABLE[i].aid| == 7 && services[i][0] == A.SERVICE_TABLE[i].id)
    }
  }

  /** Applet information: precedes every table. */
  const APPLET_INFORMATION := [Member(0x01, Leaf([0x10, 0x02, 0x06, 0x02, 0x02]))]

  function Records(tag: byte, values: seq<seq<byte>>): seq<Member> {
    seq(|values|, i requires 0 <= i < |values| => Member(tag, Leaf(values[i])))
  }

  function Count(tag: byte, n: nat): seq<Member> {
    [Member(tag, Leaf([n % 0x100]))]
  }

  /** An ACR entry as the host sees it: ids and type, then the layout-dependent rest. */
  function AcrValue(e: X.AcrEntry, raw: seq<byte>): seq<byte> {
    [e.acrid, e.kind, e.applet] + raw
  }

  /** A provider or service entry: id, tag, length, and the copy. */
  function AidValue(id: byte, raw: seq<byte>): seq<byte> {
    [id, AID_TAG, |raw| % 0x100] + raw
  }

  /** The entries of the ACR table, or only those with the given id. */
  function AcrValues(t: seq<X.AcrEntry>, raw: seq<seq<byte>>, acrid: Option<byte>): seq<seq<byte>>
    requires |t| == |raw|
  {
    if t == [] then []
    else
      var n := |t| - 1;
      AcrValues(t[..n], raw[..n], acrid)
      + if acrid.None? || acrid.value == t[n].acrid then [AcrValue(t[n], raw[n])] else []
  }

  /** cac_aca_get_acr */
  function AcrList(t: RawTables, acrid: Option<byte>): (r: Option<seq<Member>>)
    requires t.Ok()
  {
    var entries := Records(0xa0, AcrValues(X.ACR_TABLE, t.acr, acrid));
    if acrid.None? then Some(Count(0xa1, |X.ACR_TABLE|) + entries)
    else if entries == [] then None
    else Some(entries)
  }

  /** aid_to_applet_id: 0 when the AID is not in the service table. */
  function AppletId(services: seq<A.Service>, aid: seq<byte>): byte {
    if services == [] then 0
    else if services[0].aid == aid then services[0].id
    else AppletId(services[1..], aid)
  }

  function WithId(t: seq<A.Applet>, id: byte): (r: seq<A.Applet>) {
    if t == [] then []
    else (if t[0].id == id then [t[0]] else []) + WithId(t[1..], id)
  }

  function AppletValues(t: seq<A.Applet>): seq<seq<byte>> {
    seq(|t|, i requires 0 <= i < |t| => A.EncodeApplet(t[i]))
  }

  /** cac_aca_get_applet_acr: the whole table, or the entry of one applet. */
  function AppletAcrList(pki: nat, aid: seq<byte>): (r: Option<seq<Member>>)
    requires pki <= A.PKI_SLOTS
  {
    var t := A.InUse(A.APPLETS_TABLE, pki);
    if aid == [] then Some(Count(0x81, |t|) + Records(0x80, AppletValues(t)))
    else
      var id := AppletId(A.InUse(A.SERVICE_TABLE, pki), aid);
      if id == 0 then None else Some(Records(0x80, AppletValues(WithId(t, id))))
  }

  /** The first object with the given id, over all applets in order. */
  function FindObject(t: seq<A.Applet>, coid: (byte, byte)): (r: Option<A.Object>) {
    if t == [] then None
    else
      match FindIn(t[0].objects, coid)
      case Some(o) => Some(o)
      case None => FindObject(t[1..], coid)
  }

  function FindIn(l: seq<A.Object>, coid: (byte, byte)): (r: Option<A.Object>) {
    if l == [] then None
    else if (l[0].id0, l[0].id1) == coid then Some(l[0])
    else FindIn(l[1..], coid)
  }

  /** cac_aca_get_applet_acr_coid */
  function ObjectAcrList(pki: nat, coid: (byte, byte)): (r: Option<seq<Member>>)
    requires pki <= A.PKI_SLOTS
  {
    match FindObject(A.InUse(A.APPLETS_TABLE, pki), coid)
    case None => None
    case Some(o) => Some([Member(A.OBJECT_ACR, Leaf(A.EncodeObject(o)))])
  }

  /** The records for the slots 1 to 3: the loop counts from one, and so do the slots it reads. */
  function AmpValues(t: RawTables): (r: seq<seq<byte>>)
    requires t.Ok()
    ensures |r| == NUM_AMPS
  {
    seq(NUM_AMPS, i requires 0 <= i < NUM_AMPS => AidValue(AMP_TABLE[i + 1].id, t.amp[i + 1]))
  }

  /** cac_aca_get_amp */
  function AmpList(t: RawTables): seq<Member>
    requires t.Ok()
  {
    Count(0x91, NUM_AMPS) + Records(0x90, AmpValues(t))
  }

  function ServiceValues(t: RawTables): (r: seq<seq<byte>>)
    requires t.Ok()
    ensures |r| == |A.SERVICE_TABLE|
  {
    seq(|A.SERVICE_TABLE|, i requires 0 <= i < |A.SERVICE_TABLE| => AidValue(A.SERVICE_TABLE[i].id, t.services[i]))
  }

  /** cac_aca_get_service_table */
  function ServiceList(t: RawTables, pki: nat): seq<Member>
    requires t.Ok() && pki <= A.PKI_SLOTS
  {
    PkiAids();
    Count(0x94, |A.InUse(A.SERVICE_TABLE, pki)|) + Records(0x93, A.InUse(ServiceValues(t), pki))
  }

  // ---- What a host makes of them ----

  /** Records a host can parse back as they are. */
  predicate Sendable(l: seq<Member>) {
    forall i :: 0 <= i < |l| ==> l[i].body.Leaf? && HeaderOk(l[i].tag, |l[i].body.value|)
  }

  lemma RecordsSendable(tag: byte, values: seq<seq<byte>>, head: seq<Member>)
    requires tag != 0x00 && tag != 0xff && Sendable(head)
    requires forall i :: 0 <= i < |values| ==> |values[i]| < 0xffff
    ensures Sendable(head + Records(tag, values))
  {
    var l := head + Records(tag, values);
    forall i | 0 <= i < |l| ensures l[i].body.Leaf? && HeaderOk(l[i].tag, |l[i].body.value|) {
      if i >= |head| {
        assert l[i] == Member(tag, Leaf(values[i - |head|]));
      }
    }
  }

  /** A record that decodes to the rules of this applet, without what its flags leave out. */
  predicate ShowsApplet(m: Member, a: A.Applet) {
    m.tag == 0x80 && m.body.Leaf?
    && A.DecodeApplet(m.body.value) == Some(a.(objects := A.VisibleObjects(a.objects)))
  }

  lemma EntryShowsApplet(a: A.Applet)
    requires A.Bounded(a)
    ensures |A.EncodeApplet(a)| < 0xffff && ShowsApplet(Member(0x80, Leaf(A.EncodeApplet(a))), a)
  {
    A.BoundedFits(a);
    A.AppletRoundTrip(a);
  }

  lemma InUseBounded(pki: nat)
    requires pki <= A.PKI_SLOTS
    ensures |A.APPLETS_TABLE| == 23
    ensures var t := A.InUse(A.APPLETS_TABLE, pki);
            |t| == 13 + pki && forall i :: 0 <= i < |t| ==> A.Bounded(t[i])
  {
    A.AppletsTableBounded();
  }

  /** The whole table: as many entries as announced, each of them an applet in use. */
  lemma WholeTableDecodes(pki: nat)
    requires pki <= A.PKI_SLOTS
    ensures var t := A.InUse(A.APPLETS_TABLE, pki);
            var l := AppletAcrList(pki, []).value;
            && Sendable(l) && |l| == 1 + |t| && l[0] == Member(0x81, Leaf([13 + pki]))
            && forall i :: 0 <= i < |t| ==> ShowsApplet(l[1 + i], t[i])
  {
    hide A.APPLETS_TABLE;
    InUseBounded(pki);
    var t := A.InUse(A.APPLETS_TABLE, pki);
    forall i | 0 <= i < |t|
      ensures |AppletValues(t)[i]| < 0xffff && ShowsApplet(Records(0x80, AppletValues(t))[i], t[i])
    {
      EntryShowsApplet(t[i]);
    }
    RecordsSendable(0x80, AppletValues(t), Count(0x81, |t|));
    var l := AppletAcrList(pki, []).value;
    assert forall i :: 0 <= i < |t| ==> l[1 + i] == Records(0x80, AppletValues(t))[i];
  }

  // ---- One applet ----

  predicate DistinctIds(t: seq<A.Applet>) {
    forall i, j :: 0 <= i < j < |t| ==> t[i].id != t[j].id
  }

  predicate DistinctAids(s: seq<A.Service>) {
    forall i, j :: 0 <= i < j < |s| ==> s[i].aid != s[j].aid
  }

  const APPLET_IDS: seq<byte> :=
    [0x61, 0x62, 0x63, 0x64, 0x65, 0x66, 0x67, 0x68, 0x69, 0x6a,
     0x1f, 0xf4, 0x4b, 0x41, 0x42, 0x40, 0x4e, 0x4d, 0x50, 0x51, 0x52, 0x44, 0x45]

  const SERVICE_IDS: seq<byte> :=
    [0x61, 0x62, 0x63, 0x64, 0x65, 0x66, 0x67, 0x68, 0x69, 0x6a,
     0x40, 0x4f, 0x4b, 0x41, 0x42, 0x4e, 0x4d, 0x50, 0x51, 0x52, 0x44, 0x45]

  lemma TableIds()
    ensures |A.APPLETS_TABLE| == 23 == |APPLET_IDS|
    ensures forall i :: 0 <= i < 23 ==> A.APPLETS_TABLE[i].id == APPLET_IDS[i]
  {
  }

  lemma ServiceIds()
    ensures |A.SERVICE_TABLE| == 22 == |SERVICE_IDS|
    ensures forall i :: 0 <= i < 22 ==> A.SERVICE_TABLE[i].id == SERVICE_IDS[i] && |A.SERVICE_TABLE[i].aid| == 7
    ensures A.SERVICE_TABLE[11].aid == CCC_AID
  {
  }

  lemma ServiceAidsDiffer()
    ensures |A.SERVICE_TABLE| == 22 && DistinctAids(A.SERVICE_TABLE)
  {
    forall i, j | 0 <= i < j < 22 ensures A.SERVICE_TABLE[i].aid != A.SERVICE_TABLE[j].aid {
      var x, y := A.SERVICE_TABLE[i].aid, A.SERVICE_TABLE[j].aid;
      assert x[3] != y[3] || x[4] != y[4] || x[5] != y[5] || x[6] != y[6];
    }
  }

  lemma IdsDiffer()
    ensures forall i, j :: 0 <= i < j < 23 ==> APPLET_IDS[i] != APPLET_IDS[j]
    ensures forall i :: 0 <= i < 22 ==> SERVICE_IDS[i] != 0 && SERVICE_IDS[i] != 0xa0
    ensures forall i :: 0 <= i < 23 ==> APPLET_IDS[i] != 0x4f
  {
  }

  lemma {:induction false} WithIdIsUnique(t: seq<A.Applet>, id: byte)
    requires DistinctIds(t)
    ensures WithId(t, id) == [] <==> forall k :: 0 <= k < |t| ==> t[k].id != id
    ensures forall k :: 0 <= k < |t| && t[k].id == id ==> WithId(t, id) == [t[k]]
    ensures |WithId(t, id)| <= 1
  {
    if t != [] {
      WithIdIsUnique(t[1..], id);
      assert forall k :: 0 < k < |t| ==> t[k] == t[1..][k - 1];
      if t[0].id == id {
        assert forall k :: 0 <= k < |t[1..]| ==> t[1..][k].id != id;
        assert WithId(t, id) == [t[0]] + [];
      } else {
        assert WithId(t, id) == [] + WithId(t[1..], id) == WithId(t[1..], id);
      }
    }
  }

  lemma {:induction false} AppletIdIs(s: seq<A.Service>, aid: seq<byte>)
    requires forall i :: 0 <= i < |s| ==> s[i].id != 0
    ensures AppletId(s, aid) == 0 <==> forall i :: 0 <= i < |s| ==> s[i].aid != aid
    ensures DistinctAids(s) ==> forall i :: 0 <= i < |s| && s[i].aid == aid ==> AppletId(s, aid) == s[i].id
  {
    if s != [] {
      AppletIdIs(s[1..], aid);
      assert forall i :: 0 < i < |s| ==> s[i] == s[1..][i - 1];
    }
  }

  /** Every service in use has an applet entry, except the CCC, whose id in the applet table is another. */
  lemma ServiceHasApplet(pki: nat, j: nat)
    requires pki <= A.PKI_SLOTS && |A.SERVICE_TABLE| == 22 && |A.APPLETS_TABLE| == 23 && j < 12 + pki
    ensures var s, t := A.InUse(A.SERVICE_TABLE, pki), A.InUse(A.APPLETS_TABLE, pki);
            (exists k :: 0 <= k < |t| && t[k].id == s[j].id) <==> s[j].aid != CCC_AID
  {
    hide A.SERVICE_TABLE, A.APPLETS_TABLE;
    TableIds();
    ServiceIds();
    IdsDiffer();
    ServiceAidsDiffer();
    var s, t := A.InUse(A.SERVICE_TABLE, pki), A.InUse(A.APPLETS_TABLE, pki);
    var n := if j < pki then j else j - pki + 10;
    assert s[j] == A.SERVICE_TABLE[n];
    if n == 11 {
      forall k | 0 <= k < |t| ensures t[k].id != 0x4f {
        assert t[k] == A.APPLETS_TABLE[if k < pki then k else k - pki + 10];
      }
    } else {
      var m := if n < 10 then n else if n == 10 then 15 else if n <= 14 then n else n + 1;
      assert APPLET_IDS[m] == SERVICE_IDS[n];
      var k := if m < 10 then m else m - 10 + pki;
      assert t[k] == A.APPLETS_TABLE[m];
      assert t[k].id == s[j].id && A.SERVICE_TABLE[n].aid != A.SERVICE_TABLE[11].aid;
    }
  }

  lemma InUseDistinct(pki: nat)
    requires pki <= A.PKI_SLOTS && |A.SERVICE_TABLE| == 22 && |A.APPLETS_TABLE| == 23
    ensures DistinctAids(A.InUse(A.SERVICE_TABLE, pki)) && DistinctIds(A.InUse(A.APPLETS_TABLE, pki))
    ensures forall i :: 0 <= i < 12 + pki ==> A.InUse(A.SERVICE_TABLE, pki)[i].id != 0
    ensures A.InUse(A.SERVICE_TABLE, pki)[pki + 1].aid == CCC_AID
  {
    hide A.SERVICE_TABLE, A.APPLETS_TABLE, APPLET_IDS, SERVICE_IDS;
    TableIds();
    ServiceIds();
    IdsDiffer();
    ServiceAidsDiffer();
    PartsDistinct(A.APPLETS_TABLE, A.SERVICE_TABLE, pki);
  }

  lemma PartsDistinct(t: seq<A.Applet>, s: seq<A.Service>, pki: nat)
    requires pki <= A.PKI_SLOTS <= |t| && A.PKI_SLOTS <= |s| && DistinctIds(t) && DistinctAids(s)
    ensures DistinctIds(A.InUse(t, pki)) && DistinctAids(A.InUse(s, pki))
  {
  }

  /** Asking by AID, for every AID: no answer exactly when no service in use has it; otherwise the entry of the applet
    * in use with the service's id, at most one record, and none exactly for the CCC. */
  lemma OneApplet(pki: nat, aid: seq<byte>)
    requires pki <= A.PKI_SLOTS && aid != [] && |A.SERVICE_TABLE| == 22 && |A.APPLETS_TABLE| == 23
    ensures var s, t, r := A.InUse(A.SERVICE_TABLE, pki), A.InUse(A.APPLETS_TABLE, pki), AppletAcrList(pki, aid);
            && (r.None? <==> forall i :: 0 <= i < |s| ==> s[i].aid != aid)
            && (r.Some? ==>
                  && Sendable(r.value) && |r.value| <= 1
                  && (r.value == [] <==> aid == CCC_AID)
                  && (r.value != [] <==> exists k :: 0 <= k < |t| && t[k].id == AppletId(s, aid))
                  && (r.value != [] ==> exists k :: 0 <= k < |t| && t[k].id == AppletId(s, aid)
                                                   && ShowsApplet(r.value[0], t[k])))
  {
    hide A.SERVICE_TABLE, A.APPLETS_TABLE;
    InUseDistinct(pki);
    InUseBounded(pki);
    var s, t := A.InUse(A.SERVICE_TABLE, pki), A.InUse(A.APPLETS_TABLE, pki);
    AppletIdIs(s, aid);
    if j :| 0 <= j < |s| && s[j].aid == aid {
      ServiceHasApplet(pki, j);
      WithIdIsUnique(t, s[j].id);
      OneEntry(t, s[j].id);
    }
  }

  lemma OneEntry(t: seq<A.Applet>, id: byte)
    requires DistinctIds(t) && forall i :: 0 <= i < |t| ==> A.Bounded(t[i])
    ensures var l := Records(0x80, AppletValues(WithId(t, id)));
            && Sendable(l) && |l| <= 1
            && (l != [] <==> exists k :: 0 <= k < |t| && t[k].id == id)
            && (l != [] ==> exists k :: 0 <= k < |t| && t[k].id == id && ShowsApplet(l[0], t[k]))
  {
    WithIdIsUnique(t, id);
    var l := Records(0x80, AppletValues(WithId(t, id)));
    if k :| 0 <= k < |t| && t[k].id == id {
      EntryShowsApplet(t[k]);
      assert WithId(t, id)[0] == t[k] && l[0] == Member(0x80, Leaf(A.EncodeApplet(t[k])));
    }
  }

  // ---- One object ----

  predicate HasId(o: A.Object, coid: (byte, byte)) {
    (o.id0, o.id1) == coid
  }

  predicate HasNone(l: seq<A.Object>, coid: (byte, byte)) {
    forall k :: 0 <= k < |l| ==> !HasId(l[k], coid)
  }

  /** Object `k` of applet `i` has the id, and no object before it in the order of the table does. */
  predicate IsFirst(t: seq<A.Applet>, coid: (byte, byte), i: nat, k: nat) {
    && i < |t| && k < |t[i].objects| && HasId(t[i].objects[k], coid)
    && HasNone(t[i].objects[..k], coid) && forall h :: 0 <= h < i ==> HasNone(t[h].objects, coid)
  }

  lemma {:induction false} FindInIs(l: seq<A.Object>, coid: (byte, byte))
    ensures FindIn(l, coid).None? <==> HasNone(l, coid)
    ensures FindIn(l, coid).Some? ==>
              exists k :: 0 <= k < |l| && l[k] == FindIn(l, coid).value && HasId(l[k], coid) && HasNone(l[..k], coid)
  {
    if l != [] {
      FindInIs(l[1..], coid);
      assert forall k :: 0 < k < |l| ==> l[k] == l[1..][k - 1];
      if HasId(l[0], coid) {
        assert HasNone(l[..0], coid);
      } else if FindIn(l[1..], coid).Some? {
        var k :| 0 <= k < |l[1..]| && l[1..][k] == FindIn(l[1..], coid).value && HasId(l[1..][k], coid)
                 && HasNone(l[1..][..k], coid);
        assert l[..k + 1] == [l[0]] + l[1..][..k];
        assert l[k + 1] == FindIn(l, coid).value && HasNone(l[..k + 1], coid);
      }
    }
  }

  lemma {:induction false} FindObjectIs(t: seq<A.Applet>, coid: (byte, byte))
    ensures FindObject(t, coid).None? <==> forall i :: 0 <= i < |t| ==> HasNone(t[i].objects, coid)
    ensures FindObject(t, coid).Some? ==>
              exists i: nat, k: nat :: IsFirst(t, coid, i, k) && t[i].objects[k] == FindObject(t, coid).value
  {
    if t != [] {
      FindInIs(t[0].objects, coid);
      FindObjectIs(t[1..], coid);
      assert forall i :: 0 < i < |t| ==> t[i] == t[1..][i - 1];
      if FindIn(t[0].objects, coid).Some? {
        var l := t[0].objects;
        var k :| 0 <= k < |l| && l[k] == FindIn(l, coid).value && HasId(l[k], coid) && HasNone(l[..k], coid);
        assert IsFirst(t, coid, 0, k);
      } else if FindObject(t[1..], coid).Some? {
        var i: nat, k: nat :| IsFirst(t[1..], coid, i, k) && t[1..][i].objects[k] == FindObject(t[1..], coid).value;
        assert IsFirst(t, coid, i + 1, k) && t[i + 1].objects[k] == FindObject(t, coid).value;
      }
    }
  }

  /** A record that decodes to the rules of this object. */
  predicate ShowsObject(m: Member, o: A.Object) {
    m.tag == A.OBJECT_ACR && m.body.Leaf? && A.DecodeObject(m.body.value) == Some(A.VisibleObject(o))
  }

  /** Asking by object id: no answer exactly when no applet in use has such an object; otherwise one record, the rules
    * of the first one. */
  lemma OneObject(pki: nat, coid: (byte, byte))
    requires pki <= A.PKI_SLOTS && |A.APPLETS_TABLE| == 23
    ensures var t, r := A.InUse(A.APPLETS_TABLE, pki), ObjectAcrList(pki, coid);
            && (r.None? <==> forall i :: 0 <= i < |t| ==> HasNone(t[i].objects, coid))
            && (r.Some? ==> Sendable(r.value) && |r.value| == 1
                            && exists i: nat, k: nat :: IsFirst(t, coid, i, k)
                                                        && ShowsObject(r.value[0], t[i].objects[k]))
  {
    hide A.APPLETS_TABLE;
    InUseBounded(pki);
    var t := A.InUse(A.APPLETS_TABLE, pki);
    FindObjectIs(t, coid);
    if FindObject(t, coid).Some? {
      var i: nat, k: nat :| IsFirst(t, coid, i, k) && t[i].objects[k] == FindObject(t, coid).value;
      assert A.Bounded(t[i]);
      A.ObjectBound(t[i].objects[k]);
      A.ObjectRoundTrip(t[i].objects[k]);
    }
  }

  // ---- Access rules, providers, services ----

  lemma RuleIds()
    ensures |X.ACR_TABLE| == 11
    ensures forall i, j :: 0 <= i < j < |X.ACR_TABLE| ==> X.ACR_TABLE[i].acrid != X.ACR_TABLE[j].acrid
    ensures forall i :: 0 <= i < |X.ACR_TABLE| ==> X.ACR_TABLE[i].Bounded()
  {
  }

  lemma {:induction false} AllAcrValues(t: seq<X.AcrEntry>, raw: seq<seq<byte>>)
    requires |t| == |raw|
    ensures |AcrValues(t, raw, None)| == |t|
    ensures forall i :: 0 <= i < |t| ==> AcrValues(t, raw, None)[i] == AcrValue(t[i], raw[i])
  {
    if t != [] {
      AllAcrValues(t[..|t| - 1], raw[..|t| - 1]);
    }
  }

  lemma {:induction false} OneAcrValue(t: seq<X.AcrEntry>, raw: seq<seq<byte>>, id: byte)
    requires |t| == |raw| && forall i, j :: 0 <= i < j < |t| ==> t[i].acrid != t[j].acrid
    ensures AcrValues(t, raw, Some(id)) == [] <==> forall i :: 0 <= i < |t| ==> t[i].acrid != id
    ensures forall i :: 0 <= i < |t| && t[i].acrid == id ==> AcrValues(t, raw, Some(id)) == [AcrValue(t[i], raw[i])]
    ensures |AcrValues(t, raw, Some(id))| <= 1
  {
    if t != [] {
      var n := |t| - 1;
      OneAcrValue(t[..n], raw[..n], id);
      assert forall i :: 0 <= i < n ==> t[..n][i] == t[i] && raw[..n][i] == raw[i];
      if t[n].acrid == id {
        assert forall i :: 0 <= i < n ==> t[..n][i].acrid != id;
        assert AcrValues(t, raw, Some(id)) == [] + [AcrValue(t[n], raw[n])];
      } else {
        assert AcrValues(t, raw, Some(id)) == AcrValues(t[..n], raw[..n], Some(id));
      }
    }
  }

  predicate ShowsRule(m: Member, e: X.AcrEntry) {
    m.tag == 0xa0 && m.body.Leaf? && |m.body.value| == 3 + 2 * |e.methods|
    && m.body.value[..3] == [e.acrid, e.kind, e.applet]
  }

  /** All access rules in order, or the one with an id; there is never more than one. */
  lemma RulesShown(t: RawTables, acrid: Option<byte>)
    requires t.Ok()
    ensures var r := AcrList(t, acrid);
            match acrid
            case None => r.Some? && Sendable(r.value) && |r.value| == 1 + |X.ACR_TABLE|
                         && r.value[0] == Member(0xa1, Leaf([|X.ACR_TABLE|]))
                         && forall i :: 0 <= i < |X.ACR_TABLE| ==> ShowsRule(r.value[1 + i], X.ACR_TABLE[i])
            case Some(id) =>
              && (r.None? <==> forall i :: 0 <= i < |X.ACR_TABLE| ==> X.ACR_TABLE[i].acrid != id)
              && (r.Some? ==> Sendable(r.value) && |r.value| == 1
                              && exists i :: 0 <= i < |X.ACR_TABLE| && X.ACR_TABLE[i].acrid == id
                                             && ShowsRule(r.value[0], X.ACR_TABLE[i]))
  {
    hide X.ACR_TABLE, AcrList, Sendable, ShowsRule;
    match acrid {
      case None => AllRulesShown(t);
      case Some(id) => OneRuleShown(t, id);
    }
  }

  lemma AllRulesShown(t: RawTables)
    requires t.Ok()
    ensures var r := AcrList(t, None);
            r.Some? && Sendable(r.value) && |r.value| == 1 + |X.ACR_TABLE|
            && r.value[0] == Member(0xa1, Leaf([|X.ACR_TABLE|]))
            && forall i :: 0 <= i < |X.ACR_TABLE| ==> ShowsRule(r.value[1 + i], X.ACR_TABLE[i])
  {
    hide X.ACR_TABLE;
    RuleIds();
    var values := AcrValues(X.ACR_TABLE, t.acr, None);
    AllAcrValues(X.ACR_TABLE, t.acr);
    RecordsSendable(0xa0, values, Count(0xa1, |X.ACR_TABLE|));
    assert forall i :: 0 <= i < |values| ==> AcrList(t, None).value[1 + i] == Records(0xa0, values)[i];
  }

  lemma OneRuleShown(t: RawTables, id: byte)
    requires t.Ok()
    ensures var r := AcrList(t, Some(id));
            && (r.None? <==> forall i :: 0 <= i < |X.ACR_TABLE| ==> X.ACR_TABLE[i].acrid != id)
            && (r.Some? ==> Sendable(r.value) && |r.value| == 1
                            && exists i :: 0 <= i < |X.ACR_TABLE| && X.ACR_TABLE[i].acrid == id
                                           && ShowsRule(r.value[0], X.ACR_TABLE[i]))
  {
    hide X.ACR_TABLE, Sendable;
    RuleIds();
    OneAcrValue(X.ACR_TABLE, t.acr, id);
    var values := AcrValues(X.ACR_TABLE, t.acr, Some(id));
    RecordsSendable(0xa0, values, []);
    assert [] + Records(0xa0, values) == Records(0xa0, values);
    if i :| 0 <= i < |X.ACR_TABLE| && X.ACR_TABLE[i].acrid == id {
      assert Records(0xa0, values)[0] == Member(0xa0, Leaf(AcrValue(X.ACR_TABLE[i], t.acr[i])));
      assert ShowsRule(Records(0xa0, values)[0], X.ACR_TABLE[i]);
    }
  }

  /** A provider or service record: the id, and a field of the AID's length behind the AID tag. */
  predicate ShowsId(m: Member, tag: byte, id: byte, n: nat) {
    m.tag == tag && m.body.Leaf? && |m.body.value| == 3 + n && n < 0x100 && m.body.value[..3] == [id, AID_TAG, n]
  }

  /** Record `k` of the provider table shows slot `k` of it, counted from zero: the first provider is left out, and the
    * last record shows a slot that nobody filled in. */
  lemma ProvidersShown(t: RawTables)
    requires t.Ok()
    ensures var l := AmpList(t);
            && Sendable(l) && |l| == 4 && l[0] == Member(0x91, Leaf([3]))
            && (forall k :: 1 <= k <= 3 ==> ShowsId(l[k], 0x90, AMP_TABLE[k].id, |AMP_TABLE[k].aid|))
            && ShowsId(l[1], 0x90, 0x1e, 7) && ShowsId(l[2], 0x90, 0x1d, 7)
            && l[3] == Member(0x90, Leaf([0x00, 0x92, 0x00]))
  {
    hide Sendable, ShowsId, AidValue, AMP_TABLE, AmpList, RawTables.Ok;
    ProviderBytes();
    CopyLengths(t);
    AmpRecords(t);
    forall k | 1 <= k <= 3 ensures ShowsId(AmpList(t)[k], 0x90, AMP_TABLE[k].id, |AMP_TABLE[k].aid|) {
      IdIsShown(0x90, AMP_TABLE[k].id, t.amp[k]);
    }
    NoProvider(t);
    AmpSendable(t);
  }

  lemma AmpRecords(t: RawTables)
    requires t.Ok()
    ensures var l := AmpList(t);
            && |l| == 4 && l[0] == Member(0x91, Leaf([3]))
            && forall k :: 1 <= k <= 3 ==> l[k] == Member(0x90, Leaf(AidValue(AMP_TABLE[k].id, t.amp[k])))
  {
    hide AMP_TABLE, AidValue, RawTables.Ok, Records, AmpValues;
    var values := AmpValues(t);
    RecordsAt(0x90, values);
    AmpValuesAt(t);
    assert forall k :: 1 <= k <= 3 ==> AmpList(t)[k] == Records(0x90, values)[k - 1];
  }

  lemma RecordsAt(tag: byte, values: seq<seq<byte>>)
    ensures |Records(tag, values)| == |values|
    ensures forall k :: 0 <= k < |values| ==> Records(tag, values)[k] == Member(tag, Leaf(values[k]))
  {
  }

  lemma AmpValuesAt(t: RawTables)
    requires t.Ok()
    ensures |t.amp| == 5 == |AMP_TABLE|
    ensures forall k :: 1 <= k <= 3 ==> AmpValues(t)[k - 1] == AidValue(AMP_TABLE[k].id, t.amp[k])
  {
    hide AidValue;
  }

  lemma CopyLengths(t: RawTables)
    requires t.Ok()
    ensures |t.amp| == 5 && forall k :: 0 <= k < 5 ==> |t.amp[k]| == |AMP_TABLE[k].aid|
  {
  }

  lemma NoProvider(t: RawTables)
    requires t.Ok()
    ensures AidValue(AMP_TABLE[3].id, t.amp[3]) == [0x00, 0x92, 0x00]
  {
    assert t.amp[3] == [];
  }

  lemma AmpSendable(t: RawTables)
    requires t.Ok()
    ensures Sendable(AmpList(t))
  {
    RecordsSendable(0x90, AmpValues(t), Count(0x91, 3));
  }

  lemma IdIsShown(tag: byte, id: byte, raw: seq<byte>)
    requires |raw| < 0x100
    ensures ShowsId(Member(tag, Leaf(AidValue(id, raw))), tag, id, |raw|)
  {
  }

  /** A record that shows provider `j` with the length of its AID. */
  predicate ShowsProvider(l: seq<Member>, j: nat)
    requires j < |AMP_TABLE|
  {
    exists k :: 0 <= k < |l| && ShowsId(l[k], 0x90, AMP_TABLE[j].id, |AMP_TABLE[j].aid|)
  }

  /** A provider of the table is shown if and only if it is not the first. */
  lemma FirstProviderIsMissing(t: RawTables, j: nat)
    requires t.Ok() && j < NUM_AMPS
    ensures ShowsProvider(APPLET_INFORMATION + AmpList(t), j) <==> j > 0
  {
    hide AMP_TABLE, AmpList;
    ProviderBytes();
    ProvidersShown(t);
    var l := APPLET_INFORMATION + AmpList(t);
    if j > 0 {
      assert l[1 + j] == AmpList(t)[j];
    } else {
      forall k | 0 <= k < |l| ensures !ShowsId(l[k], 0x90, 0x1f, 7) {
        if k >= 2 {
          assert l[k] == AmpList(t)[k - 1];
          assert l[k].body.value[..3][0] == AMP_TABLE[k - 1].id != 0x1f;
        } else if k == 1 {
          assert l[k] == AmpList(t)[0];
        }
      }
    }
  }

  /** The extended table gives id, AID and four more bytes of each provider. */
  lemma ExtendedListsAllProviders(j: nat)
    requires j < NUM_AMPS
    ensures |X.AMP_EXTENDED| == 14 * NUM_AMPS
    ensures X.AMP_EXTENDED[14 * j..14 * j + 10] == [AMP_TABLE[j].id, 0x00, |AMP_TABLE[j].aid|] + AMP_TABLE[j].aid
  {
    var a, b, c := X.AmpRow(0x1f, [0x12, 0x00, 0x00, 0x00]), X.AmpRow(0x1e, [0x10, 0x01, 0x00, 0x00]),
                   X.AmpRow(0x1d, [0x01, 0x00, 0x00, 0x00]);
    assert X.AMP_EXTENDED == a + (b + c);
    hide X.AMP_EXTENDED, AMP_TABLE, X.AmpRow;
    ProviderBytes();
    RowIs(0x1f, [0x12, 0x00, 0x00, 0x00]);
    RowIs(0x1e, [0x10, 0x01, 0x00, 0x00]);
    RowIs(0x1d, [0x01, 0x00, 0x00, 0x00]);
    RowsOf(a, b, c);
  }

  lemma RowIs(id: byte, rest: seq<byte>)
    requires |rest| == 4
    ensures |X.AmpRow(id, rest)| == 14 && X.AmpRow(id, rest)[..10] == [id, 0x00, 0x07] + A.CacAid(0x03, 0x00)
  {
  }

  lemma RowsOf(a: seq<byte>, b: seq<byte>, c: seq<byte>)
    requires |a| == |b| == |c| == 14
    ensures var d := a + (b + c);
            |d| == 42 && d[0..10] == a[..10] && d[14..24] == b[..10] && d[28..38] == c[..10]
  {
  }

  lemma ProviderBytes()
    ensures |AMP_TABLE| == 5
    ensures forall j :: 0 <= j < NUM_AMPS ==> AMP_TABLE[j].aid == A.CacAid(0x03, 0x00) && |AMP_TABLE[j].aid| == 7
    ensures AMP_TABLE[0].id == 0x1f && AMP_TABLE[1].id == 0x1e && AMP_TABLE[2].id == 0x1d && AMP_TABLE[3].id == 0x00
    ensures AMP_TABLE[3].aid == [] && AMP_TABLE[4].aid == []
  {
  }

  lemma ServicesShown(t: RawTables, pki: nat)
    requires t.Ok() && pki <= A.PKI_SLOTS && |A.SERVICE_TABLE| == 22
    ensures var s, l := A.InUse(A.SERVICE_TABLE, pki), ServiceList(t, pki);
            && Sendable(l) && |l| == 1 + |s| && l[0] == Member(0x94, Leaf([12 + pki]))
            && forall i :: 0 <= i < |s| ==> ShowsId(l[1 + i], 0x93, s[i].id, |s[i].aid|)
  {
    hide A.SERVICE_TABLE;
    var s, values := A.InUse(A.SERVICE_TABLE, pki), A.InUse(ServiceValues(t), pki);
    forall i | 0 <= i < |s|
      ensures |values[i]| == 10 && ShowsId(Member(0x93, Leaf(values[i])), 0x93, s[i].id, |s[i].aid|)
    {
      var k := if i < pki then i else i - pki + 10;
      assert s[i] == A.SERVICE_TABLE[k] && values[i] == ServiceValues(t)[k] == AidValue(s[i].id, t.services[k]);
    }
    RecordsSendable(0x93, values, Count(0x94, |s|));
    var l := ServiceList(t, pki);
    assert forall i :: 0 <= i < |s| ==> l[1 + i] == Records(0x93, values)[i];
  }

  /** In the field for the AID stands a copy of the table entry itself, which begins with the id: it is never the
    * AID, unless that is empty. */
  lemma CopiesAreNotAids(t: RawTables, i: nat)
    requires t.Ok() && |A.SERVICE_TABLE| == 22
    ensures i < 5 ==> (t.amp[i] == AMP_TABLE[i].aid <==> i >= NUM_AMPS)
    ensures i < 22 ==> t.services[i] != A.SERVICE_TABLE[i].aid
  {
    ServiceIds();
    IdsDiffer();
    if i < 22 {
      assert A.SERVICE_TABLE[i].aid[0] == 0xa0;
    }
    if i < 3 {
      assert AMP_TABLE[i].aid[0] == 0xa0 && AMP_TABLE[i].id != 0xa0;
    }
  }

  lemma PkiAids()
    ensures |A.SERVICE_TABLE| == 22
    ensures forall i :: 0 <= i < A.PKI_SLOTS ==> A.SERVICE_TABLE[i].aid == A.CacAid(1, i)
  {
  }
}
