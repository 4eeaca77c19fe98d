/** The extended forms of the access control, service and provider tables (src/cac-aca.c): records written one
  * after the other into a buffer sized for the worst case. */
module AcaExtended {
  import opened Bytes
  import A = Acr
  import AcrCodec
  import SimpleTlvCodec

  const MAX_ACCESS_METHODS := 2
  const MAX_AID_LEN := 7

  datatype AcrEntry = AcrEntry(acrid: byte, kind: byte, applet: byte, methods: seq<(byte, byte)>) {
    /** The bound of the C type. */
    predicate Bounded() {
      |methods| <= MAX_ACCESS_METHODS
    }
  }

  const ACR_TABLE: seq<AcrEntry> :=
    [AcrEntry(0x00, 0x00, 0x00, []), AcrEntry(0x01, 0x01, 0x00, []), AcrEntry(0x02, 0x00, 0x1f, []),
     AcrEntry(0x06, 0x06, 0x00, [(0x1e, 0x00)]), AcrEntry(0x04, 0x04, 0x1f, [(0x1f, 0x21)]),
     AcrEntry(0x08, 0x03, 0x00, [(0x1d, 0x01), (0x1e, 0x01)]), AcrEntry(0x09, 0x02, 0x00, [(0x1d, 0x01)]),
     AcrEntry(0x0a, 0x03, 0x00, [(0x1d, 0x03), (0x1e, 0x01)]), AcrEntry(0x0b, 0x02, 0x00, [(0x1d, 0x00)]),
     AcrEntry(0x10, 0x00, 0x1e, []), AcrEntry(0x11, 0x00, 0x1d, [])]

  /** One provider in the extended table: id, length and AID, and four bytes more. */
  function AmpRow(id: byte, rest: seq<byte>): seq<byte> {
    [id, 0x00, 0x07, 0xa0, 0x00, 0x00, 0x00, 0x79, 0x03, 0x00] + rest
  }

  const AMP_EXTENDED: seq<byte> :=
    AmpRow(0x1f, [0x12, 0x00, 0x00, 0x00]) + (AmpRow(0x1e, [0x10, 0x01, 0x00, 0x00])
                                              + AmpRow(0x1d, [0x01, 0x00, 0x00, 0x00]))

  lemma TablesBounded()
    ensures forall i :: 0 <= i < |ACR_TABLE| ==> ACR_TABLE[i].Bounded()
    ensures |A.SERVICE_TABLE| == A.PKI_SLOTS + 12
    ensures forall i :: 0 <= i < |A.SERVICE_TABLE| ==> |A.SERVICE_TABLE[i].aid| == MAX_AID_LEN
  {
  }

  // ---- What the tables look like ----

  function MethodBytes(l: seq<(byte, byte)>): (r: seq<byte>)
    ensures |r| == 2 * |l|
  {
    if l == [] then [] else MethodBytes(l[..|l| - 1]) + [l[|l| - 1].0, l[|l| - 1].1]
  }

  /** An entry without its first byte. No access method is shown as a pair of zeros. */
  function Body(e: AcrEntry): seq<byte> {
    [e.acrid, e.kind, e.applet] + (if e.methods == [] then [0x00, 0x00] else MethodBytes(e.methods)) + [0x00]
  }

  function Entry(e: AcrEntry): seq<byte> {
    [if |e.methods| == 2 then 0x08 else 0x06] + Body(e)
  }

  function Bodies(t: seq<AcrEntry>): (r: seq<seq<byte>>)
    ensures |r| == |t| && forall i :: 0 <= i < |t| ==> r[i] == Body(t[i])
  {
    seq(|t|, i requires 0 <= i < |t| => Body(t[i]))
  }

  /** Every entry behind its length. */
  function ExtendedAcr(t: seq<AcrEntry>): seq<byte> {
    A.Frames(Bodies(t), [])
  }

  function ServiceEntry(s: A.Service): seq<byte> {
    [s.id, 0x00, |s.aid| % 0x100] + s.aid
  }

  function ExtendedServices(t: seq<A.Service>): seq<byte> {
    if t == [] then [] else ServiceEntry(t[0]) + ExtendedServices(t[1..])
  }

  // ---- Reading them back ----

  function DecodeBody(d: seq<byte>): Option<AcrEntry> {
    if |d| == 6 && d[5] == 0x00 then Some(AcrEntry(d[0], d[1], d[2], [(d[3], d[4])]))
    else if |d| == 8 && d[7] == 0x00 then Some(AcrEntry(d[0], d[1], d[2], [(d[3], d[4]), (d[5], d[6])]))
    else None
  }

  function Shown(e: AcrEntry): AcrEntry {
    if e.methods == [] then e.(methods := [(0x00, 0x00)]) else e
  }

  function DecodeServices(d: seq<byte>): (r: Option<seq<A.Service>>)
    decreases |d|
  {
    if d == [] then Some([])
    else if |d| < 3 || d[1] != 0x00 || |d| < ServiceSize(d[2]) then None
    else
      match DecodeServices(d[ServiceSize(d[2])..])
      case None => None
      case Some(rest) => Some([A.Service(d[0], d[3..ServiceSize(d[2])])] + rest)
  }

  function ServiceSize(n: nat): nat {
    3 + n
  }

  /** The byte in front of an entry, which the code derives from the number of methods, is the true length, and
    * the worst case the buffer is sized for is never exceeded. */
  lemma EntryIsFramed(e: AcrEntry)
    requires e.Bounded()
    ensures Entry(e) == A.Frame(Body(e), [])
    ensures |Entry(e)| <= 7 + 2 * (MAX_ACCESS_METHODS - 1)
  {
    assert [] + [|Body(e)| % 0x100] == [|Body(e)|];
  }

  lemma ExtendedAcrBound(t: seq<AcrEntry>)
    requires forall i :: 0 <= i < |t| ==> t[i].Bounded()
    ensures |ExtendedAcr(t)| <= |t| * (7 + 2 * (MAX_ACCESS_METHODS - 1))
  {
    forall i | 0 <= i < |t| ensures 1 + |Body(t[i])| <= 7 + 2 * (MAX_ACCESS_METHODS - 1) {
      EntryIsFramed(t[i]);
    }
    A.FramesBound(Bodies(t), [], 7 + 2 * (MAX_ACCESS_METHODS - 1));
  }

  lemma MethodsOf(l: seq<(byte, byte)>)
    requires |l| <= 2
    ensures |l| == 1 ==> MethodBytes(l) == [l[0].0, l[0].1]
    ensures |l| == 2 ==> MethodBytes(l) == [l[0].0, l[0].1, l[1].0, l[1].1]
  {
    if |l| == 2 {
      MethodsOf(l[..1]);
    } else if |l| == 1 {
      assert MethodBytes(l[..0]) == [];
    }
  }

  lemma BodyDecodes(e: AcrEntry)
    requires e.Bounded()
    ensures |Body(e)| < 0x100 && DecodeBody(Body(e)) == Some(Shown(e))
  {
    MethodsOf(e.methods);
    var m := Shown(e).methods;
    if |m| == 1 {
      assert m == [m[0]];
      assert Body(e) == [e.acrid, e.kind, e.applet, m[0].0, m[0].1, 0x00];
    } else {
      assert m == [m[0], m[1]];
      assert Body(e) == [e.acrid, e.kind, e.applet, m[0].0, m[0].1, m[1].0, m[1].1, 0x00];
    }
  }

  /** A reader that follows the length bytes recovers every entry of the table. */
  lemma ExtendedAcrDecodes(t: seq<AcrEntry>)
    requires forall i :: 0 <= i < |t| ==> t[i].Bounded()
    ensures A.Unframe(ExtendedAcr(t), []) == Some(Bodies(t))
    ensures forall i :: 0 <= i < |t| ==> DecodeBody(Bodies(t)[i]) == Some(Shown(t[i]))
  {
    forall i | 0 <= i < |t| ensures |Body(t[i])| < 0x100 && DecodeBody(Body(t[i])) == Some(Shown(t[i])) {
      BodyDecodes(t[i]);
    }
    A.UnframeInvertsFrames(Bodies(t), []);
  }

  lemma {:induction false} ExtendedServicesSnoc(t: seq<A.Service>, s: A.Service)
    ensures ExtendedServices(t + [s]) == ExtendedServices(t) + ServiceEntry(s)
  {
    if t == [] {
      assert [s][1..] == [];
      assert ExtendedServices([s]) == ServiceEntry(s) + ExtendedServices([]);
    } else {
      assert (t + [s])[1..] == t[1..] + [s];
      ExtendedServicesSnoc(t[1..], s);
      Assoc(ServiceEntry(t[0]), ExtendedServices(t[1..]), ServiceEntry(s));
    }
  }

  lemma {:induction false} ExtendedServicesBound(t: seq<A.Service>)
    requires forall i :: 0 <= i < |t| ==> |t[i].aid| <= MAX_AID_LEN
    ensures |ExtendedServices(t)| <= |t| * (3 + MAX_AID_LEN)
  {
    if t != [] {
      ExtendedServicesBound(t[1..]);
    }
  }

  /** The extended service table gives every applet id and AID back. */
  lemma {:induction false} ExtendedServicesDecode(t: seq<A.Service>)
    requires forall i :: 0 <= i < |t| ==> |t[i].aid| < 0x100
    ensures DecodeServices(ExtendedServices(t)) == Some(t)
  {
    if t != [] {
      ExtendedServicesDecode(t[1..]);
      var d := ExtendedServices(t);
      assert d == [t[0].id, 0x00, |t[0].aid|] + t[0].aid + ExtendedServices(t[1..]);
      assert ServiceSize(d[2]) == 3 + |t[0].aid|;
      MiddleOf([t[0].id, 0x00, |t[0].aid|], t[0].aid, ExtendedServices(t[1..]));
      assert t == [t[0]] + t[1..];
    }
  }

  // ---- Writing them ----

  method PutByte(buffer: array<byte>, p: nat, b: byte) returns (q: nat)
    requires p < buffer.Length
    modifies buffer
    ensures q == p + 1 && Wrote(old(buffer[..]), buffer[..], p, [b])
  {
    buffer[p] := b;
    q := p + 1;
  }

  method PutTwo(buffer: array<byte>, p: nat, a: byte, b: byte) returns (q: nat)
    requires p + 2 <= buffer.Length
    modifies buffer
    ensures q == p + 2 && Wrote(old(buffer[..]), buffer[..], p, [a, b])
  {
    buffer[p], buffer[p + 1] := a, b;
    q := p + 2;
  }

  method WriteMethods(l: seq<(byte, byte)>, buffer: array<byte>, at: nat) returns (p: nat)
    requires at + 2 * |l| <= buffer.Length
    modifies buffer
    ensures p == at + 2 * |l| && Wrote(old(buffer[..]), buffer[..], at, MethodBytes(l))
  {
    p := at;
    ghost var before := buffer[..];
    for j := 0 to |l|
      invariant p == at + 2 * j && Wrote(before, buffer[..], at, MethodBytes(l[..j]))
    {
      ghost var now := buffer[..];
      p := PutTwo(buffer, p, l[j].0, l[j].1);
      WroteThen(before, now, buffer[..], at, MethodBytes(l[..j]), [l[j].0, l[j].1]);
      assert l[..j + 1][..j] == l[..j];
    }
    assert l[..|l|] == l;
  }

  /** The length byte and the entry's own three bytes. */
  function Front(e: AcrEntry): seq<byte> {
    [if |e.methods| == 2 then 0x08 else 0x06, e.acrid, e.kind, e.applet]
  }

  /** The access methods, or two zeros for none, and the closing byte. */
  function Back(methods: seq<(byte, byte)>): seq<byte> {
    (if methods == [] then [0x00, 0x00] else MethodBytes(methods)) + [0x00]
  }

  lemma EntryParts(e: AcrEntry)
    requires e.Bounded()
    ensures Entry(e) == Front(e) + Back(e.methods)
  {
    assert Front(e) + Back(e.methods) == Entry(e);
  }

  method WriteFront(e: AcrEntry, buffer: array<byte>, at: nat) returns (p: nat)
    requires at + 4 <= buffer.Length
    modifies buffer
    ensures p == at + 4 && Wrote(old(buffer[..]), buffer[..], at, Front(e))
  {
    ghost var s0 := buffer[..];
    p := PutTwo(buffer, at, if |e.methods| == 2 then 0x08 else 0x06, e.acrid);
    ghost var s1 := buffer[..];
    p := PutTwo(buffer, p, e.kind, e.applet);
    ghost var head: seq<byte> := [if |e.methods| == 2 then 0x08 else 0x06, e.acrid];
    WroteThen(s0, s1, buffer[..], at, head, [e.kind, e.applet]);
    assert head + [e.kind, e.applet] == Front(e);
  }

  method WriteBack(methods: seq<(byte, byte)>, buffer: array<byte>, at: nat) returns (p: nat)
    requires at + |Back(methods)| <= buffer.Length
    modifies buffer
    ensures p == at + |Back(methods)| && Wrote(old(buffer[..]), buffer[..], at, Back(methods))
  {
    ghost var s0, w := buffer[..], MethodBytes(methods);
    p := WriteMethods(methods, buffer, at);
    if |methods| == 0 {
      p := PutTwo(buffer, p, 0x00, 0x00);
      w := [0x00, 0x00];
    }
    ghost var s1 := buffer[..];
    p := PutByte(buffer, p, 0x00);
    WroteThen(s0, s1, buffer[..], at, w, [0x00]);
  }

  method WriteEntry(e: AcrEntry, buffer: array<byte>, at: nat) returns (p: nat)
    requires e.Bounded() && at + |Entry(e)| <= buffer.Length
    modifies buffer
    ensures p == at + |Entry(e)| && Wrote(old(buffer[..]), buffer[..], at, Entry(e))
  {
    hide Wrote, Back, Entry;
    EntryParts(e);
    ghost var s0 := buffer[..];
    p := WriteFront(e, buffer, at);
    ghost var s1 := buffer[..];
    p := WriteBack(e.methods, buffer, p);
    WroteThen(s0, s1, buffer[..], at, Front(e), Back(e.methods));
  }

  /** cac_aca_get_acr_response_extended: the final assertion on the buffer's end holds. */
  method NewExtendedAcr(t: seq<AcrEntry>) returns (buffer: array<byte>, len: nat)
    requires forall i :: 0 <= i < |t| ==> t[i].Bounded()
    ensures len <= buffer.Length == |t| * (7 + 2 * (MAX_ACCESS_METHODS - 1))
    ensures buffer[..len] == ExtendedAcr(t)
  {
    hide Entry, ExtendedAcr;
    NoEntries();
    buffer := new byte[|t| * (7 + 2 * (MAX_ACCESS_METHODS - 1))];
    ghost var before := buffer[..];
    var p := 0;
    for i := 0 to |t|
      invariant p == |ExtendedAcr(t[..i])| && Wrote(before, buffer[..], 0, ExtendedAcr(t[..i]))
    {
      ghost var now := buffer[..];
      ExtendedAcrBound(t[..i]);
      EntryIsFramed(t[i]);
      EntrySnoc(t, i);
      p := WriteEntry(t[i], buffer, p);
      WroteThen(before, now, buffer[..], 0, ExtendedAcr(t[..i]), Entry(t[i]));
    }
    assert t[..|t|] == t;
    len := p;
  }

  lemma NoEntries()
    ensures ExtendedAcr([]) == []
  {
  }

  lemma EntrySnoc(t: seq<AcrEntry>, i: nat)
    requires i < |t| && t[i].Bounded()
    ensures ExtendedAcr(t[..i + 1]) == ExtendedAcr(t[..i]) + Entry(t[i])
  {
    EntryIsFramed(t[i]);
    var l := Bodies(t[..i + 1]);
    A.FramesSnoc(l, i, []);
    assert l[..i] == Bodies(t[..i]) && l[..i + 1] == l;
  }

  method WriteService(s: A.Service, buffer: array<byte>, at: nat) returns (p: nat)
    requires at + |ServiceEntry(s)| <= buffer.Length && |s.aid| < 0x100
    modifies buffer
    ensures p == at + |ServiceEntry(s)| && Wrote(old(buffer[..]), buffer[..], at, ServiceEntry(s))
  {
    ghost var s0 := buffer[..];
    p := PutTwo(buffer, at, s.id, 0x00);
    ghost var s1 := buffer[..];
    p := PutByte(buffer, p, |s.aid|);
    ghost var s2 := buffer[..];
    SimpleTlvCodec.Copy(s.aid, buffer, p);
    p := p + |s.aid|;
    WroteThen(s0, s1, s2, at, [s.id, 0x00], [|s.aid|]);
    WroteThen(s0, s2, buffer[..], at, [s.id, 0x00] + [|s.aid|], s.aid);
    assert [s.id, 0x00] + [|s.aid|] + s.aid == ServiceEntry(s);
  }

  /** cac_aca_get_service_response_extended: here too the final assertion holds. */
  method NewExtendedServices(t: seq<A.Service>, numStatic: nat, pki: nat) returns (buffer: array<byte>, len: nat)
    requires |t| == A.PKI_SLOTS + numStatic && pki <= A.PKI_SLOTS
    requires forall i :: 0 <= i < |t| ==> |t[i].aid| <= MAX_AID_LEN
    ensures len <= buffer.Length == (numStatic + pki) * (3 + MAX_AID_LEN)
    ensures buffer[..len] == ExtendedServices(A.InUse(t, pki))
  {
    hide ServicesProgress, Wrote, AcrCodec.Seen;
    var numEntries := numStatic + pki;
    buffer := new byte[numEntries * (3 + MAX_AID_LEN)];
    ghost var before := buffer[..];
    var p := 0;
    NoServicesYet(t, pki, before);
    for i := 0 to |t|
      invariant ServicesProgress(AcrCodec.Seen(t, pki, i), before, buffer[..], p)
    {
      ghost var seen := AcrCodec.Seen(t, pki, i);
      AcrCodec.SeenStep(t, pki, i);
      if i >= pki && i < A.PKI_SLOTS {
        assert seen + [] == seen;
        continue;
      }
      ghost var now, at := buffer[..], p;
      ServicesRoom(seen, t[i], numEntries, before, now, p);
      p := WriteService(t[i], buffer, p);
      ServicesStep(seen, t[i], before, now, buffer[..], at);
    }
    AcrCodec.SeenAll(t, pki);
    ServicesDone(A.InUse(t, pki), before, buffer[..], p);
    len := p;
  }

  ghost predicate ServicesProgress(seen: seq<A.Service>, before: seq<byte>, now: seq<byte>, p: nat) {
    && (forall i :: 0 <= i < |seen| ==> |seen[i].aid| <= MAX_AID_LEN)
    && p == |ExtendedServices(seen)| && Wrote(before, now, 0, ExtendedServices(seen))
  }

  lemma NoServicesYet(t: seq<A.Service>, pki: nat, before: seq<byte>)
    requires A.PKI_SLOTS <= |t| && pki <= A.PKI_SLOTS
    ensures ServicesProgress(AcrCodec.Seen(t, pki, 0), before, before, 0)
  {
  }

  lemma ServicesRoom(seen: seq<A.Service>, s: A.Service, n: nat, before: seq<byte>, now: seq<byte>, p: nat)
    requires |seen| < n && |s.aid| <= MAX_AID_LEN && ServicesProgress(seen, before, now, p)
    ensures p + |ServiceEntry(s)| <= n * (3 + MAX_AID_LEN)
  {
    ExtendedServicesBound(seen);
    assert (|seen| + 1) * (3 + MAX_AID_LEN) <= n * (3 + MAX_AID_LEN);
  }

  lemma ServicesStep(seen: seq<A.Service>, s: A.Service, before: seq<byte>, now: seq<byte>, after: seq<byte>, p: nat)
    requires ServicesProgress(seen, before, now, p) && |s.aid| <= MAX_AID_LEN
    requires Wrote(now, after, p, ServiceEntry(s))
    ensures ServicesProgress(seen + [s], before, after, p + |ServiceEntry(s)|)
  {
    ExtendedServicesSnoc(seen, s);
    WroteThen(before, now, after, 0, ExtendedServices(seen), ServiceEntry(s));
  }

  lemma ServicesDone(seen: seq<A.Service>, before: seq<byte>, now: seq<byte>, p: nat)
    requires ServicesProgress(seen, before, now, p)
    ensures p <= |now| && now[..p] == ExtendedServices(seen)
  {
  }
}
