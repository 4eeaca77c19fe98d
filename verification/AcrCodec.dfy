/** The writers of src/cac-aca.c: a bounded object encoder, the two-pass applet encoder and the
  * extended encoder whose only protection is a worst-case buffer. */
module AcrCodec {
  import opened Bytes
  import opened Acr

  /** One conditional byte of an instruction. */
  method PutFlagged(on: bool, b: byte, out: array<byte>, at: nat, outlen: nat) returns (ok: bool, p: nat, left: nat)
    requires at + Min(outlen, Skip(on)) <= out.Length
    modifies out
    ensures ok <==> Skip(on) <= outlen
    ensures ok ==> p == at + Skip(on) && left == outlen - Skip(on) && Wrote(old(out[..]), out[..], at, Flagged(on, b))
    ensures !ok ==> out[..] == old(out[..])
  {
    ok, p, left := true, at, outlen;
    if on {
      if left < 1 {
        ok := false;
        return;
      }
      out[p] := b;
      p, left := p + 1, left - 1;
    }
  }

  /** The three conditional bytes. */
  method WriteOptional(i: Ins, out: array<byte>, at: nat, outlen: nat) returns (ok: bool, p: nat, left: nat)
    requires at + Min(outlen, |Optional(i)|) <= out.Length
    modifies out
    ensures ok <==> |Optional(i)| <= outlen
    ensures ok ==> p == at + |Optional(i)| && left == outlen - |Optional(i)|
                   && Wrote(old(out[..]), out[..], at, Optional(i))
    ensures SameOutside(old(out[..]), out[..], at, Min(outlen, |Optional(i)|))
  {
    ghost var s0 := out[..];
    ok, p, left := PutFlagged(i.HasP1(), i.p1, out, at, outlen);
    if !ok {
      return;
    }
    ghost var s1 := out[..];
    ok, p, left := PutFlagged(i.HasP2(), i.p2, out, p, left);
    if !ok {
      return;
    }
    WroteThen(s0, s1, out[..], at, Flagged(i.HasP1(), i.p1), Flagged(i.HasP2(), i.p2));
    ghost var s2 := out[..];
    ok, p, left := PutFlagged(i.HasData1(), i.data1, out, p, left);
    if !ok {
      return;
    }
    WroteThen(s0, s2, out[..], at, Flagged(i.HasP1(), i.p1) + Flagged(i.HasP2(), i.p2), Flagged(i.HasData1(), i.data1));
  }

  /** The body of the instruction loop of acr_applet_object_encode. */
  method WriteIns(i: Ins, out: array<byte>, at: nat, outlen: nat) returns (ok: bool, p: nat, left: nat)
    requires at + Min(outlen, |EncodeIns(i)|) <= out.Length
    modifies out
    ensures ok <==> |EncodeIns(i)| <= outlen
    ensures ok ==> p == at + |EncodeIns(i)| && left == outlen - |EncodeIns(i)|
                   && Wrote(old(out[..]), out[..], at, EncodeIns(i))
    ensures SameOutside(old(out[..]), out[..], at, Min(outlen, |EncodeIns(i)|))
  {
    ghost var s0 := out[..];
    ok, p, left := false, at, outlen;
    if left < 2 {
      return;
    }
    out[p] := i.code;
    out[p + 1] := i.config;
    p, left := p + 2, left - 2;
    ghost var s1 := out[..];
    ok, p, left := WriteOptional(i, out, p, left);
    if !ok {
      return;
    }
    WroteThen(s0, s1, out[..], at, [i.code, i.config], Optional(i));
    ghost var s2 := out[..];
    ok, p, left := PutFlagged(true, i.acrid, out, p, left);
    if !ok {
      return;
    }
    WroteThen(s0, s2, out[..], at, [i.code, i.config] + Optional(i), [i.acrid]);
  }

  /** acr_applet_object_encode: fails exactly when the stated space is too small, and then has not
    * written beyond it. */
  method WriteObject(o: Object, out: array<byte>, at: nat, outlen: nat) returns (ok: bool, p: nat, len: nat)
    requires at + Min(outlen, |EncodeObject(o)|) <= out.Length
    modifies out
    ensures ok <==> |EncodeObject(o)| <= outlen
    ensures ok ==> len == |EncodeObject(o)| && p == at + len && Wrote(old(out[..]), out[..], at, EncodeObject(o))
    ensures SameOutside(old(out[..]), out[..], at, Min(outlen, |EncodeObject(o)|))
  {
    hide EncodeIns, EncodeInsList, ObjectProgress, Wrote;
    ok, p, len := false, at, 0;
    var left := outlen;
    if left < 2 {
      return;
    }
    ghost var before := out[..];
    out[p] := o.id0;
    out[p + 1] := o.id1;
    p, left := p + 2, left - 2;
    ObjectStart(o, before, out[..], at);
    for j := 0 to |o.ins|
      invariant ObjectProgress(o, j, before, out[..], at, p)
      invariant left == outlen - (p - at)
    {
      ghost var prev, p0, left0 := out[..], p, left;
      ObjectFits(o, j, before, prev, at, p);
      ok, p, left := WriteIns(o.ins[j], out, p, left);
      if !ok {
        ObjectCutShort(o, j, before, prev, out[..], at, p0, left0);
        return;
      }
      ObjectStep(o, j, before, prev, out[..], at, p0);
    }
    ObjectDone(o, before, out[..], at, p);
    ok, len := true, p - at;
  }

  function ObjectPart(o: Object, j: nat): seq<byte>
    requires j <= |o.ins|
  {
    [o.id0, o.id1] + EncodeInsList(o.ins[..j])
  }

  ghost predicate ObjectProgress(o: Object, j: nat, before: seq<byte>, now: seq<byte>, at: nat, p: nat) {
    j <= |o.ins| && p == at + |ObjectPart(o, j)| && Wrote(before, now, at, ObjectPart(o, j))
  }

  lemma ObjectStart(o: Object, before: seq<byte>, now: seq<byte>, at: nat)
    requires at + 2 <= |before| && now == before[at := o.id0][at + 1 := o.id1]
    ensures ObjectProgress(o, 0, before, now, at, at + 2)
  {
    assert ObjectPart(o, 0) == [o.id0, o.id1];
  }

  lemma ObjectFits(o: Object, j: nat, before: seq<byte>, now: seq<byte>, at: nat, p: nat)
    requires j < |o.ins| && ObjectProgress(o, j, before, now, at, p)
    ensures at <= p && p + |EncodeIns(o.ins[j])| <= at + |EncodeObject(o)|
  {
    ObjectRoom(o, j);
  }

  /** A failure leaves a part of the object behind, and nothing beyond the space that was stated. */
  lemma ObjectCutShort(o: Object, j: nat, before: seq<byte>, prev: seq<byte>, now: seq<byte>, at: nat, p: nat,
                       left: nat)
    requires j < |o.ins| && ObjectProgress(o, j, before, prev, at, p)
    requires SameOutside(prev, now, p, Min(left, |EncodeIns(o.ins[j])|))
    ensures SameOutside(before, now, at, Min(p - at + left, |EncodeObject(o)|))
  {
    ObjectRoom(o, j);
  }

  lemma ObjectDone(o: Object, before: seq<byte>, now: seq<byte>, at: nat, p: nat)
    requires ObjectProgress(o, |o.ins|, before, now, at, p)
    ensures p == at + |EncodeObject(o)| && Wrote(before, now, at, EncodeObject(o))
    ensures SameOutside(before, now, at, |EncodeObject(o)|)
  {
    assert o.ins[..|o.ins|] == o.ins;
  }

  lemma ObjectRoom(o: Object, j: nat)
    requires j < |o.ins|
    ensures ObjectPart(o, j + 1) == ObjectPart(o, j) + EncodeIns(o.ins[j])
    ensures |ObjectPart(o, j)| + |EncodeIns(o.ins[j])| <= |EncodeObject(o)|
  {
    InsListSnoc(o.ins, j);
    Assoc([o.id0, o.id1], EncodeInsList(o.ins[..j]), EncodeIns(o.ins[j]));
  }

  lemma ObjectStep(o: Object, j: nat, before: seq<byte>, prev: seq<byte>, now: seq<byte>, at: nat, p: nat)
    requires j < |o.ins| && ObjectProgress(o, j, before, prev, at, p)
    requires Wrote(prev, now, p, EncodeIns(o.ins[j]))
    ensures ObjectProgress(o, j + 1, before, now, at, p + |EncodeIns(o.ins[j])|)
  {
    ObjectRoom(o, j);
    WroteThen(before, prev, now, at, ObjectPart(o, j), EncodeIns(o.ins[j]));
  }

  // ---- acr_applet_encode ----

  /** The size pass over one object. */
  method ObjectSize(o: Object) returns (n: nat)
    ensures n == 2 + |EncodeObject(o)|
  {
    n := 4;
    for j := 0 to |o.ins|
      invariant n == 4 + |EncodeInsList(o.ins[..j])|
    {
      InsListSnoc(o.ins, j);
      InsLayout(o.ins[j]);
      n := n + 3;
      if o.ins[j].HasP1() {
        n := n + 1;
      }
      if o.ins[j].HasP2() {
        n := n + 1;
      }
      if o.ins[j].HasData1() {
        n := n + 1;
      }
    }
    assert o.ins[..|o.ins|] == o.ins;
  }

  /** The first pass: the size of the whole encoding. */
  method AppletSize(a: Applet) returns (n: nat)
    ensures n == |EncodeApplet(a)|
  {
    n := 2;
    ghost var l := ObjectBytes(a.objects);
    for i := 0 to |a.objects|
      invariant n == 2 + |Frames(l[..i], [OBJECT_ACR])|
    {
      FramesSnoc(l, i, [OBJECT_ACR]);
      var k := ObjectSize(a.objects[i]);
      n := n + k;
    }
    assert l[..|l|] == l;
  }

  /** The body of the second pass: tag, a length byte patched afterwards, and the object. */
  method WriteFramedObject(o: Object, out: array<byte>, at: nat, left: nat) returns (ok: bool, p: nat, rest: nat)
    requires 2 + |EncodeObject(o)| <= left && at + left == out.Length
    modifies out
    ensures ok && p + rest == out.Length && p == at + |Frame(EncodeObject(o), [OBJECT_ACR])|
    ensures Wrote(old(out[..]), out[..], at, Frame(EncodeObject(o), [OBJECT_ACR]))
  {
    ghost var prev := out[..];
    out[at] := OBJECT_ACR;
    var lenp := at + 1;
    var objlen;
    ok, p, objlen := WriteObject(o, out, at + 2, left - 2);
    if !ok {
      return ok, at, left;
    }
    out[lenp] := objlen % 0x100;
    rest := left - 2 - objlen;
    FrameWritten(prev, out[..], at, EncodeObject(o), [OBJECT_ACR]);
  }

  /** acr_applet_encode: the second pass fills exactly what the first pass counted and never fails,
    * whatever the applet holds. */
  method NewAppletEncoding(a: Applet) returns (buffer: array?<byte>, outlen: nat)
    ensures buffer != null && fresh(buffer) && buffer[..] == EncodeApplet(a) && outlen == |EncodeApplet(a)|
  {
    var size := AppletSize(a);
    outlen := size;
    buffer := new byte[size];
    ghost var before := buffer[..];
    buffer[0], buffer[1] := a.id, |a.objects| % 0x100;
    var p: nat, left: nat := 2, size - 2;
    for i := 0 to |a.objects|
      invariant AppletProgress(a, i, before, buffer[..], p)
      invariant p + left == size
    {
      AppletRoom(a, i);
      ghost var prev := buffer[..];
      var ok, q, rest := WriteFramedObject(a.objects[i], buffer, p, left);
      if !ok {
        buffer := null;
        return;
      }
      AppletStep(a, i, before, prev, buffer[..], p);
      p, left := q, rest;
    }
    AppletDone(a, before, buffer[..], p);
  }

  lemma FrameWritten(prev: seq<byte>, now: seq<byte>, at: nat, e: seq<byte>, prefix: seq<byte>)
    requires at + |prefix| + 1 + |e| <= |now| && now[at..at + |prefix|] == prefix
    requires now[at + |prefix|] == |e| % 0x100
    requires now[at + |prefix| + 1..at + |prefix| + 1 + |e|] == e
    requires SameOutside(prev, now, at, |prefix| + 1 + |e|)
    ensures Wrote(prev, now, at, Frame(e, prefix))
  {
    var k := at + |prefix|;
    assert now[at..k + 1 + |e|] == now[at..k] + [now[k]] + now[k + 1..k + 1 + |e|];
  }

  function AppletPart(a: Applet, i: nat): seq<byte>
    requires i <= |a.objects|
  {
    [a.id, |a.objects| % 0x100] + Frames(ObjectBytes(a.objects)[..i], [OBJECT_ACR])
  }

  ghost predicate AppletProgress(a: Applet, i: nat, before: seq<byte>, now: seq<byte>, p: nat) {
    i <= |a.objects| && |now| == |EncodeApplet(a)| && p == |AppletPart(a, i)| && Wrote(before, now, 0, AppletPart(a, i))
  }

  lemma AppletRoom(a: Applet, i: nat)
    requires i < |a.objects|
    ensures AppletPart(a, i + 1) == AppletPart(a, i) + Frame(EncodeObject(a.objects[i]), [OBJECT_ACR])
    ensures |AppletPart(a, i)| + 2 + |EncodeObject(a.objects[i])| <= |EncodeApplet(a)|
  {
    var l := ObjectBytes(a.objects);
    FramesSnoc(l, i, [OBJECT_ACR]);
    Assoc([a.id, |a.objects| % 0x100], Frames(l[..i], [OBJECT_ACR]), Frame(l[i], [OBJECT_ACR]));
  }

  lemma AppletStep(a: Applet, i: nat, before: seq<byte>, prev: seq<byte>, now: seq<byte>, p: nat)
    requires i < |a.objects| && AppletProgress(a, i, before, prev, p)
    requires Wrote(prev, now, p, Frame(EncodeObject(a.objects[i]), [OBJECT_ACR]))
    ensures AppletProgress(a, i + 1, before, now, p + 2 + |EncodeObject(a.objects[i])|)
  {
    AppletRoom(a, i);
    WroteThen(before, prev, now, 0, AppletPart(a, i), Frame(EncodeObject(a.objects[i]), [OBJECT_ACR]));
  }

  lemma AppletDone(a: Applet, before: seq<byte>, now: seq<byte>, p: nat)
    requires AppletProgress(a, |a.objects|, before, now, p)
    ensures now == EncodeApplet(a)
  {
    var l := ObjectBytes(a.objects);
    assert l[..|l|] == l;
    WroteAll(before, now, EncodeApplet(a));
  }

  // ---- The extended encoder ----

  /** One applet of the extended encoder. `plen` is not reduced by the length byte of each object, so it
    * overstates what is left; the worst-case size of the buffer is what keeps the writes inside. */
  method WriteExtendedApplet(a: Applet, out: array<byte>, at: nat, plen: nat) returns (ok: bool, p: nat, rest: nat)
    requires Bounded(a)
    requires at + WORST_APPLET <= out.Length && out.Length <= at + plen
    modifies out
    ensures ok
    ensures p == at + |Frame(ExtendedApplet(a), [])| && out.Length <= p + rest
    ensures Wrote(old(out[..]), out[..], at, Frame(ExtendedApplet(a), []))
    ensures out[at] == p - at - 1
  {
    ghost var before := out[..];
    ok, p, rest := false, at, plen;
    BoundedFits(a);
    if rest < 3 {
      return;
    }
    var len := p;
    ok, p, rest := WriteExtendedObjects(a, out, at, plen);
    if !ok {
      return;
    }
    out[len] := p - len - 1;
    FrameWritten(before, out[..], at, ExtendedApplet(a), []);
  }

  /** One object of that entry: a length byte patched afterwards, and the object. */
  method WriteExtendedObject(o: Object, out: array<byte>, at: nat, plen: nat) returns (ok: bool, p: nat, rest: nat)
    requires |o.ins| <= MAX_INSTRUCTIONS && at + 1 + |EncodeObject(o)| <= out.Length <= at + plen
    modifies out
    ensures ok && p == at + |Frame(EncodeObject(o), [])| && at + plen <= p + rest
    ensures Wrote(old(out[..]), out[..], at, Frame(EncodeObject(o), []))
  {
    ghost var prev := out[..];
    ObjectBound(o);
    var olen;
    ok, p, olen := WriteObject(o, out, at + 1, plen);
    if !ok {
      return ok, at, plen;
    }
    rest := plen - olen;
    out[at] := olen;
    FrameWritten(prev, out[..], at, EncodeObject(o), []);
  }

  /** Everything of that entry behind its length byte. */
  method WriteExtendedObjects(a: Applet, out: array<byte>, at: nat, plen: nat) returns (ok: bool, p: nat, rest: nat)
    requires Bounded(a) && 3 <= plen
    requires at + WORST_APPLET <= out.Length <= at + plen
    modifies out
    ensures ok
    ensures p == at + 1 + |ExtendedApplet(a)| && out.Length <= p + rest
    ensures Wrote(old(out[..]), out[..], at + 1, ExtendedApplet(a))
  {
    ghost var before := out[..];
    out[at + 1], out[at + 2] := a.id, |a.objects| % 0x100;
    p, rest := at + 3, plen - 3;
    ok := true;
    for j := 0 to |a.objects|
      invariant ExtendedProgress(a, j, before, out[..], at, p)
      invariant at + plen <= p + rest
      invariant ok
    {
      ExtendedRoom(a, j);
      ghost var prev, p0 := out[..], p;
      ok, p, rest := WriteExtendedObject(a.objects[j], out, p, rest);
      if !ok {
        return;
      }
      ExtendedStep(a, j, before, prev, out[..], at, p0);
    }
    ExtendedFilled(a, before, out[..], at, p);
  }

  function ExtendedPart(a: Applet, j: nat): seq<byte>
    requires j <= |a.objects|
  {
    [a.id, |a.objects| % 0x100] + Frames(ObjectBytes(a.objects)[..j], [])
  }

  /** Everything but the leading length byte has been written. */
  ghost predicate ExtendedProgress(a: Applet, j: nat, before: seq<byte>, now: seq<byte>, at: nat, p: nat) {
    && j <= |a.objects|
    && p == at + 1 + |ExtendedPart(a, j)| <= at + 3 + j * WORST_OBJECT
    && Wrote(before, now, at + 1, ExtendedPart(a, j))
  }

  lemma ExtendedRoom(a: Applet, j: nat)
    requires j < |a.objects| && Bounded(a)
    ensures ExtendedPart(a, j + 1) == ExtendedPart(a, j) + Frame(EncodeObject(a.objects[j]), [])
    ensures 1 + |EncodeObject(a.objects[j])| <= WORST_OBJECT
    ensures 3 + (j + 1) * WORST_OBJECT <= WORST_APPLET
  {
    var l := ObjectBytes(a.objects);
    ObjectBound(a.objects[j]);
    FramesSnoc(l, j, []);
    Assoc([a.id, |a.objects| % 0x100], Frames(l[..j], []), Frame(l[j], []));
  }

  lemma ExtendedStep(a: Applet, j: nat, before: seq<byte>, prev: seq<byte>, now: seq<byte>, at: nat, p: nat)
    requires j < |a.objects| && Bounded(a) && ExtendedProgress(a, j, before, prev, at, p)
    requires Wrote(prev, now, p, Frame(EncodeObject(a.objects[j]), []))
    ensures ExtendedProgress(a, j + 1, before, now, at, p + 1 + |EncodeObject(a.objects[j])|)
  {
    hide Wrote, ExtendedPart, EncodeObject, ObjectBytes;
    ExtendedRoom(a, j);
    WroteThen(before, prev, now, at + 1, ExtendedPart(a, j), Frame(EncodeObject(a.objects[j]), []));
  }

  lemma ExtendedFilled(a: Applet, before: seq<byte>, now: seq<byte>, at: nat, p: nat)
    requires ExtendedProgress(a, |a.objects|, before, now, at, p)
    ensures Wrote(before, now, at + 1, ExtendedApplet(a)) && p == at + 1 + |ExtendedApplet(a)|
  {
    var l := ObjectBytes(a.objects);
    assert l[..|l|] == l;
  }

  /** The entries the loops visit up to index `i`. */
  function Seen<T>(t: seq<T>, pki: nat, i: nat): seq<T>
    requires PKI_SLOTS <= |t| && pki <= PKI_SLOTS && i <= |t|
  {
    if i <= pki then t[..i] else if i <= PKI_SLOTS then t[..pki] else t[..pki] + t[PKI_SLOTS..i]
  }

  lemma SeenStep<T>(t: seq<T>, pki: nat, i: nat)
    requires PKI_SLOTS <= |t| && pki <= PKI_SLOTS && i < |t|
    ensures Seen(t, pki, i + 1) == Seen(t, pki, i) + if pki <= i < PKI_SLOTS then [] else [t[i]]
    ensures !(pki <= i < PKI_SLOTS) ==> |Seen(t, pki, i)| < |InUse(t, pki)|
  {
    if i < pki {
      assert t[..i + 1] == t[..i] + [t[i]];
    } else if i >= PKI_SLOTS {
      assert t[PKI_SLOTS..i + 1] == t[PKI_SLOTS..i] + [t[i]];
      Assoc(t[..pki], t[PKI_SLOTS..i], [t[i]]);
    }
  }

  lemma SeenAll<T>(t: seq<T>, pki: nat)
    requires PKI_SLOTS <= |t| && pki <= PKI_SLOTS
    ensures Seen(t, pki, |t|) == InUse(t, pki)
  {
  }

  /** cac_aca_get_applet_acr_response_extended: for a table within the bounds of its C type the encoder
    * stays inside its buffer and never takes the failure path. */
  method NewExtendedTable(t: seq<Applet>, numStatic: nat, pki: nat) returns (buffer: array<byte>, len: nat, ok: bool)
    requires |t| == PKI_SLOTS + numStatic && pki <= PKI_SLOTS
    requires forall i :: 0 <= i < |t| ==> Bounded(t[i])
    ensures ok && len <= buffer.Length && buffer[..len] == ExtendedTable(InUse(t, pki))
  {
    hide TableProgress, Seen, Wrote, ExtendedTable, ExtendedApplet, Frame, Bounded;
    var numApplets := numStatic + pki;
    buffer := new byte[numApplets * WORST_APPLET];
    ghost var before := buffer[..];
    TableStart(t, pki, before);
    var p: nat, plen: nat := 0, buffer.Length;
    ok, len := false, 0;
    assert |InUse(t, pki)| == numApplets;
    for i := 0 to |t|
      invariant TableProgress(Seen(t, pki, i), before, buffer[..], p)
      invariant buffer.Length <= p + plen
    {
      ghost var seen := Seen(t, pki, i);
      SeenStep(t, pki, i);
      if i >= pki && i < PKI_SLOTS {
        assert seen + [] == seen;
        continue;
      }
      ghost var prev := buffer[..];
      TableRoom(seen, numApplets, before, prev, p);
      var done, q, rest := WriteExtendedApplet(t[i], buffer, p, plen);
      if !done {
        return;
      }
      TableStep(seen, t[i], before, prev, buffer[..], p);
      p, plen := q, rest;
    }
    SeenAll(t, pki);
    TableDone(InUse(t, pki), before, buffer[..], p);
    return buffer, p, true;
  }

  ghost predicate TableProgress(seen: seq<Applet>, before: seq<byte>, now: seq<byte>, p: nat) {
    && (forall i :: 0 <= i < |seen| ==> Bounded(seen[i]))
    && p == |ExtendedTable(seen)| && Wrote(before, now, 0, ExtendedTable(seen))
  }

  lemma TableStart(t: seq<Applet>, pki: nat, before: seq<byte>)
    requires PKI_SLOTS <= |t| && pki <= PKI_SLOTS
    ensures TableProgress(Seen(t, pki, 0), before, before, 0)
  {
  }

  lemma TableDone(seen: seq<Applet>, before: seq<byte>, now: seq<byte>, p: nat)
    requires TableProgress(seen, before, now, p)
    ensures p <= |now| && now[..p] == ExtendedTable(seen)
  {
  }

  lemma TableRoom(seen: seq<Applet>, n: nat, before: seq<byte>, now: seq<byte>, p: nat)
    requires |seen| < n && TableProgress(seen, before, now, p)
    ensures p + WORST_APPLET <= n * WORST_APPLET
  {
    ExtendedTableBound(seen);
    assert (|seen| + 1) * WORST_APPLET <= n * WORST_APPLET;
  }

  lemma ExtendedTableSnoc(seen: seq<Applet>, a: Applet)
    ensures ExtendedTable(seen + [a]) == ExtendedTable(seen) + Frame(ExtendedApplet(a), [])
  {
    var l := ExtendedBytes(seen + [a]);
    FramesSnoc(l, |seen|, []);
    assert l[..|seen|] == ExtendedBytes(seen);
    assert l[..|seen| + 1] == l;
  }

  lemma TableStep(seen: seq<Applet>, a: Applet, before: seq<byte>, prev: seq<byte>, now: seq<byte>, p: nat)
    requires TableProgress(seen, before, prev, p) && Bounded(a)
    requires Wrote(prev, now, p, Frame(ExtendedApplet(a), []))
    ensures TableProgress(seen + [a], before, now, p + |Frame(ExtendedApplet(a), [])|)
  {
    ExtendedTableSnoc(seen, a);
    WroteThen(before, prev, now, 0, ExtendedTable(seen), Frame(ExtendedApplet(a), []));
  }
}
