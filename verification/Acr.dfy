/** The applet/object access control rules of the ACA applet (src/cac-aca.c): the table, its two
  * encodings (Get ACR, section 5.3.3.5 of GSC-IS 2.1, and the compressed "extended" form) and decoders
  * for both. */
module Acr {
  import opened Bytes

  const P1_FLAG := 1
  const P2_FLAG := 2
  const DATA1_FLAG := 4
  const MAX_INSTRUCTIONS := 5
  const MAX_APPLET_OBJECTS := 5
  const OBJECT_ACR: byte := 0x82
  const PKI_SLOTS := 10

  datatype Ins = Ins(code: byte, acrid: byte, config: byte, p1: byte, p2: byte, data1: byte) {
    predicate HasP1() { config % 2 == 1 }
    predicate HasP2() { config / 2 % 2 == 1 }
    predicate HasData1() { config / 4 % 2 == 1 }

    /** What a reader can know: fields whose flag is off are not transmitted. */
    function Visible(): Ins {
      this.(p1 := if HasP1() then p1 else 0, p2 := if HasP2() then p2 else 0, data1 := if HasData1() then data1 else 0)
    }
  }

  datatype Object = Object(id0: byte, id1: byte, ins: seq<Ins>)
  datatype Applet = Applet(id: byte, objects: seq<Object>)

  function Flagged(on: bool, b: byte): seq<byte> {
    if on then [b] else []
  }

  function EncodeIns(i: Ins): (r: seq<byte>)
    ensures 3 <= |r| <= 6
  {
    [i.code, i.config] + Optional(i) + [i.acrid]
  }

  function Optional(i: Ins): (r: seq<byte>)
    ensures |r| == Skip(i.HasP1()) + Skip(i.HasP2()) + Skip(i.HasData1())
  {
    Flagged(i.HasP1(), i.p1) + Flagged(i.HasP2(), i.p2) + Flagged(i.HasData1(), i.data1)
  }

  function EncodeInsList(l: seq<Ins>): seq<byte> {
    if l == [] then [] else EncodeIns(l[0]) + EncodeInsList(l[1..])
  }

  function EncodeObject(o: Object): seq<byte> {
    [o.id0, o.id1] + EncodeInsList(o.ins)
  }

  /** Payloads one after the other, each behind a prefix and one length byte. */
  function Frames(l: seq<seq<byte>>, prefix: seq<byte>): seq<byte> {
    if l == [] then [] else Frame(l[0], prefix) + Frames(l[1..], prefix)
  }

  function Frame(payload: seq<byte>, prefix: seq<byte>): seq<byte> {
    prefix + [|payload| % 0x100] + payload
  }

  function ObjectBytes(l: seq<Object>): (r: seq<seq<byte>>)
    ensures |r| == |l| && forall i :: 0 <= i < |l| ==> r[i] == EncodeObject(l[i])
  {
    seq(|l|, i requires 0 <= i < |l| => EncodeObject(l[i]))
  }

  function EncodeObjects(l: seq<Object>): seq<byte> {
    Frames(ObjectBytes(l), [OBJECT_ACR])
  }

  function EncodeApplet(a: Applet): seq<byte> {
    [a.id, |a.objects| % 0x100] + EncodeObjects(a.objects)
  }

  lemma {:induction false} FramesConcat(a: seq<seq<byte>>, b: seq<seq<byte>>, prefix: seq<byte>)
    ensures Frames(a + b, prefix) == Frames(a, prefix) + Frames(b, prefix)
  {
    if a == [] {
      assert a + b == b;
    } else {
      assert (a + b)[0] == a[0] && (a + b)[1..] == a[1..] + b;
      FramesConcat(a[1..], b, prefix);
      Assoc(Frame(a[0], prefix), Frames(a[1..], prefix), Frames(b, prefix));
    }
  }

  lemma FramesSnoc(l: seq<seq<byte>>, j: nat, prefix: seq<byte>)
    requires j < |l|
    ensures Frames(l[..j + 1], prefix) == Frames(l[..j], prefix) + Frame(l[j], prefix)
    ensures |Frames(l[..j + 1], prefix)| <= |Frames(l, prefix)|
  {
    assert Frames(l[..j + 1], prefix) == Frames(l[..j], prefix) + Frame(l[j], prefix) by {
      FramesConcat(l[..j], [l[j]], prefix);
      assert l[..j + 1] == l[..j] + [l[j]];
      assert Frames([l[j]], prefix) == Frame(l[j], prefix) + Frames([], prefix);
    }
    assert |Frames(l[..j + 1], prefix)| <= |Frames(l, prefix)| by {
      FramesConcat(l[..j + 1], l[j + 1..], prefix);
      assert l == l[..j + 1] + l[j + 1..];
    }
  }

  lemma InsListSnoc(l: seq<Ins>, j: nat)
    requires j < |l|
    ensures EncodeInsList(l[..j + 1]) == EncodeInsList(l[..j]) + EncodeIns(l[j])
    ensures |EncodeInsList(l[..j + 1])| <= |EncodeInsList(l)|
  {
    calc {
      EncodeInsList(l[..j + 1]);
      { assert l[..j + 1] == l[..j] + [l[j]]; }
      EncodeInsList(l[..j] + [l[j]]);
      { InsListConcat(l[..j], [l[j]]); }
      EncodeInsList(l[..j]) + EncodeInsList([l[j]]);
      { InsListOne(l[j]); }
      EncodeInsList(l[..j]) + EncodeIns(l[j]);
    }
    InsListPrefix(l, j + 1);
  }

  lemma InsListOne(i: Ins)
    ensures EncodeInsList([i]) == EncodeIns(i)
  {
    assert EncodeInsList([i]) == EncodeIns(i) + EncodeInsList([]);
  }

  lemma InsListPrefix(l: seq<Ins>, j: nat)
    requires j <= |l|
    ensures |EncodeInsList(l[..j])| <= |EncodeInsList(l)|
  {
    InsListConcat(l[..j], l[j..]);
    assert l == l[..j] + l[j..];
  }

  lemma {:induction false} InsListConcat(a: seq<Ins>, b: seq<Ins>)
    ensures EncodeInsList(a + b) == EncodeInsList(a) + EncodeInsList(b)
  {
    if a == [] {
      assert a + b == b;
    } else {
      assert (a + b)[0] == a[0] && (a + b)[1..] == a[1..] + b;
      InsListConcat(a[1..], b);
      Assoc(EncodeIns(a[0]), EncodeInsList(a[1..]), EncodeInsList(b));
    }
  }

  lemma {:induction false} InsListBound(l: seq<Ins>)
    ensures |EncodeInsList(l)| <= 6 * |l|
  {
    if l != [] {
      InsListBound(l[1..]);
    }
  }

  // ---- Decoding ----

  function Skip(on: bool): nat {
    if on then 1 else 0
  }

  /** One instruction, its length driven by the flags in its second byte. */
  function DecodeIns(d: seq<byte>): (r: Option<(Ins, nat)>)
    ensures r.Some? ==> 3 <= r.value.1 <= |d|
  {
    if |d| < 3 then None
    else
      var i := Ins(d[0], 0, d[1], 0, 0, 0);
      var a := 2 + Skip(i.HasP1());
      var b := a + Skip(i.HasP2());
      var c := b + Skip(i.HasData1());
      if |d| < c + 1 then None
      else
        Some((i.(acrid := d[c], p1 := if i.HasP1() then d[2] else 0, p2 := if i.HasP2() then d[a] else 0,
                 data1 := if i.HasData1() then d[b] else 0), c + 1))
  }

  function DecodeInsList(d: seq<byte>): (r: Option<seq<Ins>>)
    decreases |d|
  {
    if d == [] then Some([])
    else
      match DecodeIns(d)
      case None => None
      case Some((i, n)) =>
        match DecodeInsList(d[n..])
        case None => None
        case Some(rest) => Some([i] + rest)
  }

  function DecodeObject(d: seq<byte>): (r: Option<Object>) {
    if |d| < 2 then None
    else
      match DecodeInsList(d[2..])
      case None => None
      case Some(ins) => Some(Object(d[0], d[1], ins))
  }

  /** Walk the length bytes. */
  function Unframe(d: seq<byte>, prefix: seq<byte>): (r: Option<seq<seq<byte>>>)
    decreases |d|
  {
    var k := |prefix|;
    if d == [] then Some([])
    else if |d| <= k || d[..k] != prefix || d[k] > |d| - k - 1 then None
    else
      var end: nat := k + 1 + d[k] as int;
      match Unframe(d[end..], prefix)
      case None => None
      case Some(rest) => Some([d[k + 1..end]] + rest)
  }

  /** `n` objects, each behind its prefix and length byte, and nothing else. */
  function DecodeObjects(d: seq<byte>, n: nat, prefix: seq<byte>): (r: Option<seq<Object>>) {
    match Unframe(d, prefix)
    case None => None
    case Some(l) =>
      if |l| != n || exists i :: 0 <= i < |l| && DecodeObject(l[i]).None? then None
      else Some(seq(n, i requires 0 <= i < n => DecodeObject(l[i]).value))
  }

  function DecodeApplet(d: seq<byte>): (r: Option<Applet>) {
    if |d| < 2 then None
    else
      match DecodeObjects(d[2..], d[1], [OBJECT_ACR])
      case None => None
      case Some(objects) => Some(Applet(d[0], objects))
  }

  function VisibleIns(l: seq<Ins>): (r: seq<Ins>)
    ensures |r| == |l| && forall i :: 0 <= i < |l| ==> r[i] == l[i].Visible()
  {
    if l == [] then [] else [l[0].Visible()] + VisibleIns(l[1..])
  }

  function VisibleObject(o: Object): Object {
    o.(ins := VisibleIns(o.ins))
  }

  function VisibleObjects(l: seq<Object>): (r: seq<Object>)
    ensures |r| == |l| && forall i :: 0 <= i < |l| ==> r[i] == VisibleObject(l[i])
  {
    if l == [] then [] else [VisibleObject(l[0])] + VisibleObjects(l[1..])
  }

  /** Lengths and counts fit the single bytes that hold them. */
  predicate Fits(a: Applet) {
    |a.objects| <= 255 && forall i :: 0 <= i < |a.objects| ==> |EncodeObject(a.objects[i])| < 0x100
  }

  lemma DecodeInsThen(i: Ins, rest: seq<byte>)
    ensures DecodeIns(EncodeIns(i) + rest) == Some((i.Visible(), |EncodeIns(i)|))
    ensures (EncodeIns(i) + rest)[|EncodeIns(i)|..] == rest
  {
    var e := EncodeIns(i);
    var d := e + rest;
    assert forall k :: 0 <= k < |e| ==> d[k] == e[k];
    assert e[0] == i.code && e[1] == i.config;
    InsLayout(i);
    CutAt(e, rest);
  }

  lemma InsLayout(i: Ins)
    ensures var e := EncodeIns(i);
            var a := 2 + Skip(i.HasP1());
            var b := a + Skip(i.HasP2());
            var c := b + Skip(i.HasData1());
            && |e| == c + 1 && e[c] == i.acrid
            && (i.HasP1() ==> e[2] == i.p1) && (i.HasP2() ==> e[a] == i.p2) && (i.HasData1() ==> e[b] == i.data1)
  {
  }

  lemma {:induction false} InsListRoundTrip(l: seq<Ins>)
    ensures DecodeInsList(EncodeInsList(l)) == Some(VisibleIns(l))
  {
    if l != [] {
      InsListRoundTrip(l[1..]);
      DecodeInsThen(l[0], EncodeInsList(l[1..]));
    }
  }

  lemma ObjectRoundTrip(o: Object)
    ensures DecodeObject(EncodeObject(o)) == Some(VisibleObject(o))
  {
    InsListRoundTrip(o.ins);
    CutAt([o.id0, o.id1], EncodeInsList(o.ins));
  }

  lemma {:induction false} UnframeInvertsFrames(l: seq<seq<byte>>, prefix: seq<byte>)
    requires forall i :: 0 <= i < |l| ==> |l[i]| < 0x100
    ensures Unframe(Frames(l, prefix), prefix) == Some(l)
  {
    if l != [] {
      var rest := Frames(l[1..], prefix);
      calc {
        Unframe(Frame(l[0], prefix) + rest, prefix);
        {
          UnframeInvertsFrames(l[1..], prefix);
          UnframeStep(l[0], rest, prefix);
        }
        Some([l[0]] + l[1..]);
        { assert [l[0]] + l[1..] == l; }
        Some(l);
      }
    }
  }

  lemma UnframeStep(payload: seq<byte>, rest: seq<byte>, prefix: seq<byte>)
    requires |payload| < 0x100 && Unframe(rest, prefix).Some?
    ensures Unframe(Frame(payload, prefix) + rest, prefix) == Some([payload] + Unframe(rest, prefix).value)
  {
    var d := Frame(payload, prefix) + rest;
    MiddleOf(prefix + [|payload|], payload, rest);
    assert d[..|prefix|] == prefix && d[|prefix|] == |payload|;
  }

  lemma ObjectsRoundTrip(l: seq<Object>, prefix: seq<byte>)
    requires forall i :: 0 <= i < |l| ==> |EncodeObject(l[i])| < 0x100
    ensures DecodeObjects(Frames(ObjectBytes(l), prefix), |l|, prefix) == Some(VisibleObjects(l))
  {
    var bytes := ObjectBytes(l);
    UnframeInvertsFrames(bytes, prefix);
    forall i | 0 <= i < |l| ensures DecodeObject(bytes[i]) == Some(VisibleObject(l[i])) {
      ObjectRoundTrip(l[i]);
    }
    assert DecodeObjects(Frames(bytes, prefix), |l|, prefix).value == VisibleObjects(l);
  }

  lemma DecodeAppletStep(id: byte, n: nat, body: seq<byte>)
    requires n < 0x100 && DecodeObjects(body, n, [OBJECT_ACR]).Some?
    ensures DecodeApplet([id, n] + body) == Some(Applet(id, DecodeObjects(body, n, [OBJECT_ACR]).value))
  {
    CutAt([id, n], body);
  }

  /** A decoder driven by the configuration bits recovers every object and instruction. */
  lemma AppletRoundTrip(a: Applet)
    requires Fits(a)
    ensures DecodeApplet(EncodeApplet(a)) == Some(a.(objects := VisibleObjects(a.objects)))
  {
    var body := EncodeObjects(a.objects);
    assert DecodeObjects(body, |a.objects|, [OBJECT_ACR]) == Some(VisibleObjects(a.objects)) by {
      ObjectsRoundTrip(a.objects, [OBJECT_ACR]);
    }
    calc {
      DecodeApplet(EncodeApplet(a));
      DecodeApplet([a.id, |a.objects|] + body);
      { DecodeAppletStep(a.id, |a.objects|, body); }
      Some(a.(objects := VisibleObjects(a.objects)));
    }
  }

  // ---- The extended form ----

  /** An applet's entry: its objects carry a length byte but no tag. */
  function ExtendedApplet(a: Applet): seq<byte> {
    [a.id, |a.objects| % 0x100] + Frames(ObjectBytes(a.objects), [])
  }

  function ExtendedBytes(t: seq<Applet>): (r: seq<seq<byte>>)
    ensures |r| == |t| && forall i :: 0 <= i < |t| ==> r[i] == ExtendedApplet(t[i])
  {
    seq(|t|, i requires 0 <= i < |t| => ExtendedApplet(t[i]))
  }

  /** The table: every entry behind a length byte. */
  function ExtendedTable(t: seq<Applet>): seq<byte> {
    Frames(ExtendedBytes(t), [])
  }

  /** The array bounds of the table's C type. */
  predicate Bounded(a: Applet) {
    |a.objects| <= MAX_APPLET_OBJECTS && forall i :: 0 <= i < |a.objects| ==> |a.objects[i].ins| <= MAX_INSTRUCTIONS
  }

  const WORST_OBJECT := 3 + MAX_INSTRUCTIONS * 6
  const WORST_APPLET := 3 + MAX_APPLET_OBJECTS * WORST_OBJECT

  lemma ObjectBound(o: Object)
    requires |o.ins| <= MAX_INSTRUCTIONS
    ensures 1 + |EncodeObject(o)| <= WORST_OBJECT
  {
    InsListBound(o.ins);
  }

  lemma {:induction false} FramesBound(l: seq<seq<byte>>, prefix: seq<byte>, n: nat)
    requires forall i :: 0 <= i < |l| ==> |prefix| + 1 + |l[i]| <= n
    ensures |Frames(l, prefix)| <= |l| * n
  {
    if l != [] {
      FramesBound(l[1..], prefix, n);
      calc {
        |Frames(l, prefix)|;
        |Frame(l[0], prefix)| + |Frames(l[1..], prefix)|;
      <=
        n + (|l| - 1) * n;
        |l| * n;
      }
    }
  }

  lemma BoundedFits(a: Applet)
    requires Bounded(a)
    ensures Fits(a) && 1 + |ExtendedApplet(a)| <= WORST_APPLET <= 0x100 && |EncodeApplet(a)| <= WORST_APPLET + 5
  {
    forall i | 0 <= i < |a.objects| ensures 1 + |EncodeObject(a.objects[i])| <= WORST_OBJECT {
      ObjectBound(a.objects[i]);
    }
    FramesBound(ObjectBytes(a.objects), [], WORST_OBJECT);
    FramesBound(ObjectBytes(a.objects), [OBJECT_ACR], WORST_OBJECT + 1);
  }

  lemma ExtendedTableBound(t: seq<Applet>)
    requires forall i :: 0 <= i < |t| ==> Bounded(t[i])
    ensures |ExtendedTable(t)| <= |t| * WORST_APPLET
  {
    forall i | 0 <= i < |t| ensures 1 + |ExtendedApplet(t[i])| <= WORST_APPLET {
      BoundedFits(t[i]);
    }
    FramesBound(ExtendedBytes(t), [], WORST_APPLET);
  }

  function DecodeExtendedApplet(d: seq<byte>): (r: Option<Applet>) {
    if |d| < 2 then None
    else
      match DecodeObjects(d[2..], d[1], [])
      case None => None
      case Some(objects) => Some(Applet(d[0], objects))
  }

  /** Walk the table by its length bytes and decode every entry. */
  function DecodeExtended(d: seq<byte>): (r: Option<seq<Applet>>) {
    match Unframe(d, [])
    case None => None
    case Some(l) =>
      if exists i :: 0 <= i < |l| && DecodeExtendedApplet(l[i]).None? then None
      else Some(seq(|l|, i requires 0 <= i < |l| => DecodeExtendedApplet(l[i]).value))
  }

  lemma ExtendedAppletStep(id: byte, n: nat, body: seq<byte>)
    requires n < 0x100 && DecodeObjects(body, n, []).Some?
    ensures DecodeExtendedApplet([id, n] + body) == Some(Applet(id, DecodeObjects(body, n, []).value))
  {
    CutAt([id, n], body);
  }

  lemma ExtendedAppletRoundTrip(a: Applet)
    requires Bounded(a)
    ensures DecodeExtendedApplet(ExtendedApplet(a)) == Some(a.(objects := VisibleObjects(a.objects)))
  {
    hide DecodeObjects, ObjectBytes, VisibleObjects;
    var body := Frames(ObjectBytes(a.objects), []);
    assert DecodeObjects(body, |a.objects|, []) == Some(VisibleObjects(a.objects)) by {
      BoundedFits(a);
      ObjectsRoundTrip(a.objects, []);
    }
    calc {
      DecodeExtendedApplet(ExtendedApplet(a));
      DecodeExtendedApplet([a.id, |a.objects|] + body);
      { ExtendedAppletStep(a.id, |a.objects|, body); }
      Some(a.(objects := VisibleObjects(a.objects)));
    }
  }

  /** Within the bounds every length byte is the true length, so the walk recovers the table. */
  lemma ExtendedRoundTrip(t: seq<Applet>)
    requires forall i :: 0 <= i < |t| ==> Bounded(t[i])
    ensures var r := DecodeExtended(ExtendedTable(t));
            r.Some? && |r.value| == |t|
            && forall i :: 0 <= i < |t| ==> r.value[i] == t[i].(objects := VisibleObjects(t[i].objects))
  {
    forall i | 0 <= i < |t| ensures |ExtendedApplet(t[i])| < 0x100
                                    && DecodeExtendedApplet(ExtendedApplet(t[i]))
                                    == Some(t[i].(objects := VisibleObjects(t[i].objects))) {
      BoundedFits(t[i]);
      ExtendedAppletRoundTrip(t[i]);
    }
    UnframeInvertsFrames(ExtendedBytes(t), []);
  }

  /** The entries that exist on a card with `pki` certificates: unused PKI slots are skipped. */
  function InUse<T>(t: seq<T>, pki: nat): seq<T>
    requires PKI_SLOTS <= |t| && pki <= PKI_SLOTS
  {
    t[..pki] + t[PKI_SLOTS..]
  }

  // ---- The table ----

  function NoConfig(code: byte, acrid: byte): Ins {
    Ins(code, acrid, 0, 0, 0, 0)
  }

  const UPDATE_BUFFER: byte := 0x58
  const READ_BUFFER: byte := 0x52
  const SIGN_DECRYPT: byte := 0x42
  const VERIFY: byte := 0x20
  const READ_BINARY: byte := 0xb0
  const READ_DATA1 := Ins(READ_BUFFER, 0x00, DATA1_FLAG, 0, 0, 0x01)
  const VERIFY_10 := NoConfig(VERIFY, 0x10)
  /** EXTERNAL AUTHENTICATE with a P1 value, GET CHALLENGE, VERIFY */
  const UNLOCK := [Ins(0x82, 0x11, P1_FLAG, 0x00, 0, 0), NoConfig(0x84, 0x11), VERIFY_10]

  function PkiApplet(k: byte): Applet
    requires k < PKI_SLOTS
  {
    Applet(0x61 + k, [
      Object(0x01, k, [NoConfig(UPDATE_BUFFER, 0x04), NoConfig(READ_BUFFER, 0x00), NoConfig(SIGN_DECRYPT, 0x06)]),
      Object(0xff, 0xff, [VERIFY_10])])
  }

  function OneObject(id: byte, o: Object): Applet {
    Applet(id, [o, Object(0xff, 0xff, UNLOCK)])
  }

  function Plain(update: byte): seq<Ins> {
    [NoConfig(UPDATE_BUFFER, update), NoConfig(READ_BUFFER, 0x00)]
  }

  function Guarded(update: byte, read: byte): seq<Ins> {
    [NoConfig(UPDATE_BUFFER, update), READ_DATA1, NoConfig(READ_BUFFER, read)]
  }

  const APPLETS_TABLE: seq<Applet> :=
    [PkiApplet(0), PkiApplet(1), PkiApplet(2), PkiApplet(3), PkiApplet(4),
     PkiApplet(5), PkiApplet(6), PkiApplet(7), PkiApplet(8), PkiApplet(9),
     Applet(0x1f, [Object(0xff, 0xff, [NoConfig(VERIFY, 0x00)])]),
     OneObject(0xf4, Object(0xdb, 0x00, Plain(0x04))),
     OneObject(0x4b, Object(0x02, 0xfb, Plain(0x06))),
     OneObject(0x41, Object(0x02, 0x00, Guarded(0x09, 0x08))),
     OneObject(0x42, Object(0x02, 0x01, Guarded(0x0b, 0x0a))),
     Applet(0x40, [
       Object(0x30, 0x00, Plain(0x04) + [NoConfig(READ_BINARY, 0x00)]),
       Object(0x60, 0x10, Guarded(0x04, 0x06)),
       Object(0x60, 0x30, Guarded(0x04, 0x06)),
       Object(0x90, 0x00, Plain(0x04)),
       Object(0xff, 0xff, UNLOCK)]),
     OneObject(0x4e, Object(0x02, 0xfe, Plain(0x04))),
     OneObject(0x4d, Object(0x02, 0xfd, Guarded(0x06, 0x06))),
     Applet(0x50, [Object(0xff, 0xff, Plain(0x04) + UNLOCK)]),
     Applet(0x51, [Object(0xff, 0xff, Plain(0x04) + UNLOCK)]),
     Applet(0x52, [Object(0xff, 0xff, Plain(0x04) + UNLOCK)]),
     OneObject(0x44, Object(0x12, 0x01, Guarded(0x06, 0x06))),
     OneObject(0x45, Object(0x12, 0x02, Guarded(0x06, 0x06)))]

  lemma AppletsTableBounded()
    ensures |APPLETS_TABLE| == 23
    ensures forall i :: 0 <= i < |APPLETS_TABLE| ==> Bounded(APPLETS_TABLE[i])
  {
  }

  /** The service table: applet id and AID. */
  datatype Service = Service(id: byte, aid: seq<byte>)

  function CacAid(x: byte, y: byte): seq<byte> {
    [0xa0, 0x00, 0x00, 0x00, 0x79, x, y]
  }

  const SERVICE_TABLE: seq<Service> :=
    [Service(0x61, CacAid(1, 0)), Service(0x62, CacAid(1, 1)), Service(0x63, CacAid(1, 2)),
     Service(0x64, CacAid(1, 3)), Service(0x65, CacAid(1, 4)), Service(0x66, CacAid(1, 5)),
     Service(0x67, CacAid(1, 6)), Service(0x68, CacAid(1, 7)), Service(0x69, CacAid(1, 8)),
     Service(0x6a, CacAid(1, 9)),
     Service(0x40, [0xa0, 0x00, 0x00, 0x01, 0x16, 0x30, 0x00]),
     Service(0x4f, [0xa0, 0x00, 0x00, 0x01, 0x16, 0xdb, 0x00]),
     Service(0x4b, CacAid(0x02, 0xfb)), Service(0x41, CacAid(0x02, 0x00)), Service(0x42, CacAid(0x02, 0x01)),
     Service(0x4e, CacAid(0x02, 0xfe)), Service(0x4d, CacAid(0x02, 0xfd)), Service(0x50, CacAid(0x02, 0xf2)),
     Service(0x51, CacAid(0x02, 0xf0)), Service(0x52, CacAid(0x02, 0xf1)), Service(0x44, CacAid(0x12, 0x01)),
     Service(0x45, CacAid(0x12, 0x02))]
}
