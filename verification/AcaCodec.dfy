/** The loops of src/cac-aca.c that look entries up and collect them into lists of SimpleTLV records. */
module AcaCodec {
  import opened Bytes
  import opened SimpleTlv
  import opened AcaTables
  import A = Acr
  import X = AcaExtended
  import AcrCodec

  lemma RecordsSnoc(tag: byte, values: seq<seq<byte>>, v: seq<byte>)
    ensures Records(tag, values + [v]) == Records(tag, values) + [Member(tag, Leaf(v))]
  {
  }

  lemma AcrValuesStep(t: seq<X.AcrEntry>, raw: seq<seq<byte>>, acrid: Option<byte>, i: nat)
    requires |t| == |raw| && i < |t|
    ensures AcrValues(t[..i + 1], raw[..i + 1], acrid)
         == AcrValues(t[..i], raw[..i], acrid)
            + if acrid.None? || acrid.value == t[i].acrid then [AcrValue(t[i], raw[i])] else []
  {
    assert t[..i + 1][..i] == t[..i] && raw[..i + 1][..i] == raw[..i];
  }

  /** cac_aca_get_acr: what is collected fits the space set aside, one slot for one rule. */
  method NewAcr(t: RawTables, acrid: Option<byte>) returns (r: Option<seq<Member>>)
    requires t.Ok()
    ensures r == AcrList(t, acrid)
    ensures r.Some? ==> |r.value| <= if acrid.Some? then 1 else |X.ACR_TABLE| + 1
  {
    hide X.ACR_TABLE, ShowsRule;
    RulesShown(t, acrid);
    var list := [];
    if acrid.None? {
      list := Count(0xa1, |X.ACR_TABLE|);
    }
    ghost var records := Records(0xa0, AcrValues(X.ACR_TABLE, t.acr, acrid));
    assert [] + records == records;
    list := CollectRules(X.ACR_TABLE, t.acr, acrid, list);
    if |list| <= 0 {
      return None;
    }
    return Some(list);
  }

  /** The loop over the table. */
  method CollectRules(t: seq<X.AcrEntry>, raw: seq<seq<byte>>, acrid: Option<byte>, head: seq<Member>)
    returns (list: seq<Member>)
    requires |t| == |raw|
    ensures list == head + Records(0xa0, AcrValues(t, raw, acrid))
  {
    list := head;
    ghost var values := [];
    for i := 0 to |t|
      invariant values == AcrValues(t[..i], raw[..i], acrid)
      invariant list == head + Records(0xa0, values)
    {
      AcrValuesStep(t, raw, acrid, i);
      if acrid.Some? && acrid.value != t[i].acrid {
        continue;
      }
      var value := AcrValue(t[i], raw[i]);
      RecordsSnoc(0xa0, values, value);
      list := list + [Member(0xa0, Leaf(value))];
      values := values + [value];
    }
    assert t[..|t|] == t && raw[..|t|] == raw;
  }

  /** aid_to_applet_id */
  method FindAppletId(pki: nat, aid: seq<byte>) returns (id: byte)
    requires pki <= A.PKI_SLOTS
    ensures id == AppletId(A.InUse(A.SERVICE_TABLE, pki), aid)
  {
    id := FindService(A.SERVICE_TABLE, pki, aid);
  }

  method FindService(t: seq<A.Service>, pki: nat, aid: seq<byte>) returns (id: byte)
    requires A.PKI_SLOTS <= |t| && pki <= A.PKI_SLOTS
    ensures id == AppletId(A.InUse(t, pki), aid)
  {
    hide A.InUse, AcrCodec.Seen;
    ghost var all := A.InUse(t, pki);
    SeenNone(t, pki);
    assert all[0..] == all;
    for i := 0 to |t|
      invariant |AcrCodec.Seen(t, pki, i)| <= |all|
      invariant AppletId(all, aid) == AppletId(all[|AcrCodec.Seen(t, pki, i)|..], aid)
    {
      SeenPrefix(t, pki, i);
      AcrCodec.SeenStep(t, pki, i);
      if i < pki || i >= A.PKI_SLOTS {
        if |aid| == |t[i].aid| && aid == t[i].aid {
          return t[i].id;
        }
      }
    }
    AcrCodec.SeenAll(t, pki);
    return 0x00;
  }

  lemma SeenNone<T>(t: seq<T>, pki: nat)
    requires A.PKI_SLOTS <= |t| && pki <= A.PKI_SLOTS
    ensures AcrCodec.Seen(t, pki, 0) == []
  {
  }

  lemma SeenPrefix<T>(t: seq<T>, pki: nat, i: nat)
    requires A.PKI_SLOTS <= |t| && pki <= A.PKI_SLOTS && i < |t|
    ensures AcrCodec.Seen(t, pki, i) <= A.InUse(t, pki) && AcrCodec.Seen(t, pki, i + 1) <= A.InUse(t, pki)
    ensures i < pki || i >= A.PKI_SLOTS ==>
              |AcrCodec.Seen(t, pki, i)| < |A.InUse(t, pki)|
              && A.InUse(t, pki)[|AcrCodec.Seen(t, pki, i)|] == t[i]
  {
  }

  lemma {:induction false} WithIdSnoc(t: seq<A.Applet>, id: byte, a: A.Applet)
    ensures WithId(t + [a], id) == WithId(t, id) + if a.id == id then [a] else []
  {
    var last := if a.id == id then [a] else [];
    if t == [] {
      assert t + [a] == [a] && [a][1..] == [];
      assert WithId([a], id) == last + WithId([], id);
    } else {
      var head := if t[0].id == id then [t[0]] else [];
      calc {
        WithId(t + [a], id);
        { assert (t + [a])[0] == t[0] && (t + [a])[1..] == t[1..] + [a]; }
        head + WithId(t[1..] + [a], id);
        { WithIdSnoc(t[1..], id, a); }
        head + (WithId(t[1..], id) + last);
        { Assoc(head, WithId(t[1..], id), last); }
        WithId(t, id) + last;
      }
    }
  }

  /** cac_aca_get_applet_acr: one slot is set aside for one applet, and because no two applets share an id one is
    * enough. */
  method NewAppletAcr(pki: nat, aid: seq<byte>) returns (r: Option<seq<Member>>)
    requires pki <= A.PKI_SLOTS
    ensures r == AppletAcrList(pki, aid)
    ensures r.Some? ==> |r.value| <= if aid != [] then 1 else 13 + pki + 1
  {
    hide A.APPLETS_TABLE, A.SERVICE_TABLE, A.Bounded, AppletId, WithId;
    SlotsSuffice(pki, aid);
    A.AppletsTableBounded();
    var id: byte := 0;
    var list := [];
    if |aid| != 0 {
      id := FindAppletId(pki, aid);
      if id == 0 {
        return None;
      }
    }
    if id == 0 {
      list := Count(0x81, 13 + pki);
    }
    ghost var records := Records(0x80, AppletValues(Wanted(A.InUse(A.APPLETS_TABLE, pki), id)));
    assert [] + records == records;
    list := CollectApplets(A.APPLETS_TABLE, pki, id, list);
    return Some(list);
  }

  /** The applets in use that have the id, or all of them for id 0. */
  ghost function Wanted(t: seq<A.Applet>, id: byte): seq<A.Applet> {
    if id == 0 then t else WithId(t, id)
  }

  lemma WantedSnoc(t: seq<A.Applet>, id: byte, a: A.Applet)
    ensures Wanted(t + [a], id) == Wanted(t, id) + if id == 0 || a.id == id then [a] else []
  {
    WithIdSnoc(t, id, a);
  }

  /** The loop over the table. */
  method CollectApplets(t: seq<A.Applet>, pki: nat, id: byte, head: seq<Member>) returns (list: seq<Member>)
    requires A.PKI_SLOTS <= |t| && pki <= A.PKI_SLOTS
    ensures list == head + Records(0x80, AppletValues(Wanted(A.InUse(t, pki), id)))
  {
    hide A.InUse, AppletValues, Wanted;
    list := head;
    ghost var kept := [];
    WantedNone(id);
    for i := 0 to |t|
      invariant kept == Wanted(AcrCodec.Seen(t, pki, i), id)
      invariant list == head + Records(0x80, AppletValues(kept))
    {
      AcrCodec.SeenStep(t, pki, i);
      if i >= pki && i < A.PKI_SLOTS {
        continue;
      }
      WantedSnoc(AcrCodec.Seen(t, pki, i), id, t[i]);
      if id != 0 && id != t[i].id {
        continue;
      }
      var bytes, len := AcrCodec.NewAppletEncoding(t[i]);
      AppletValuesSnoc(kept, t[i]);
      kept := kept + [t[i]];
      list := list + [Member(0x80, Leaf(bytes[..]))];
    }
    AcrCodec.SeenAll(t, pki);
  }

  lemma WantedNone(id: byte)
    ensures Wanted([], id) == [] && Records(0x80, AppletValues([])) == []
  {
  }

  lemma SlotsSuffice(pki: nat, aid: seq<byte>)
    requires pki <= A.PKI_SLOTS
    ensures AppletAcrList(pki, aid).Some? ==> |AppletAcrList(pki, aid).value| <= if aid != [] then 1 else 13 + pki + 1
  {
    TableIds();
    ServiceIds();
    if aid != [] {
      OneApplet(pki, aid);
    } else {
      WholeTableDecodes(pki);
      InUseBounded(pki);
    }
  }

  lemma AppletValuesSnoc(t: seq<A.Applet>, a: A.Applet)
    ensures Records(0x80, AppletValues(t + [a]))
         == Records(0x80, AppletValues(t)) + [Member(0x80, Leaf(A.EncodeApplet(a)))]
  {
  }

  /** The inner loop of cac_aca_get_applet_acr_coid. */
  method ObjectAcrIn(l: seq<A.Object>, coid: (byte, byte)) returns (r: Option<seq<Member>>)
    requires forall j :: 0 <= j < |l| ==> |l[j].ins| <= A.MAX_INSTRUCTIONS
    ensures match FindIn(l, coid)
            case None => r.None?
            case Some(o) => r == Some([Member(A.OBJECT_ACR, Leaf(A.EncodeObject(o)))])
  {
    for j := 0 to |l|
      invariant FindIn(l, coid) == FindIn(l[j..], coid)
    {
      if (l[j].id0, l[j].id1) == coid {
        A.ObjectBound(l[j]);
        var value := new byte[A.MAX_INSTRUCTIONS * 6 + 2];
        var ok, p, len := AcrCodec.WriteObject(l[j], value, 0, value.Length);
        if ok {
          return Some([Member(A.OBJECT_ACR, Leaf(value[..len]))]);
        }
      }
    }
    return None;
  }

  /** cac_aca_get_applet_acr_coid: the first object with this id, encoded into a buffer for the largest one. */
  method NewObjectAcr(pki: nat, coid: (byte, byte)) returns (r: Option<seq<Member>>)
    requires pki <= A.PKI_SLOTS
    ensures r == ObjectAcrList(pki, coid)
  {
    hide A.APPLETS_TABLE;
    A.AppletsTableBounded();
    var t := A.APPLETS_TABLE;
    ghost var all := A.InUse(t, pki);
    for i := 0 to |t|
      invariant AcrCodec.Seen(t, pki, i) <= all
      invariant FindObject(all, coid) == FindObject(all[|AcrCodec.Seen(t, pki, i)|..], coid)
    {
      SeenPrefix(t, pki, i);
      AcrCodec.SeenStep(t, pki, i);
      if i >= pki && i < A.PKI_SLOTS {
        continue;
      }
      assert A.Bounded(t[i]);
      r := ObjectAcrIn(t[i].objects, coid);
      if r.Some? {
        return;
      }
    }
    AcrCodec.SeenAll(t, pki);
    return None;
  }

  /** cac_aca_get_amp: one loop counts the records and the slots of the table, both from one. */
  method NewAmp(t: RawTables) returns (r: seq<Member>)
    requires t.Ok()
    ensures r == AmpList(t) && |r| == NUM_AMPS + 1
  {
    r := Count(0x91, NUM_AMPS);
    ghost var head, values := r, AmpValues(t);
    for i := 1 to NUM_AMPS + 1
      invariant r == head + Records(0x90, values[..i - 1])
    {
      assert values[..i] == values[..i - 1] + [values[i - 1]];
      RecordsSnoc(0x90, values[..i - 1], values[i - 1]);
      r := r + [Member(0x90, Leaf(AidValue(AMP_TABLE[i].id, t.amp[i])))];
    }
    assert values[..NUM_AMPS] == values;
  }

  /** cac_aca_get_service_table: the final assertion on the number of records holds. */
  method NewServices(t: RawTables, pki: nat) returns (r: seq<Member>)
    requires t.Ok() && pki <= A.PKI_SLOTS
    ensures r == ServiceList(t, pki) && |r| == 12 + pki + 1
  {
    hide A.SERVICE_TABLE;
    var numEntries := 12 + pki;
    PkiAids();
    r := Count(0x94, numEntries);
    ghost var head, values := r, ServiceValues(t);
    for i := 0 to |A.SERVICE_TABLE|
      invariant r == head + Records(0x93, AcrCodec.Seen(values, pki, i))
    {
      AcrCodec.SeenStep(values, pki, i);
      if i >= pki && i < A.PKI_SLOTS {
        continue;
      }
      RecordsSnoc(0x93, AcrCodec.Seen(values, pki, i), values[i]);
      r := r + [Member(0x93, Leaf(AidValue(A.SERVICE_TABLE[i].id, t.services[i])))];
    }
    AcrCodec.SeenAll(values, pki);
  }
}
