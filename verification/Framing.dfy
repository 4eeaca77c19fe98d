/** The byte stream between client and host (src/vscard_common.h): every message is a header of three 32-bit
  * numbers, most significant byte first, and a payload of the length the header states. */
module Framing {
  import opened Bytes

  const HEADER_SIZE := 12
  const WORD := 0x1_0000_0000

  function Be32(x: nat): (r: seq<byte>)
    ensures |r| == 4
  {
    [x / 0x100 / 0x100 / 0x100 % 0x100, x / 0x100 / 0x100 % 0x100, x / 0x100 % 0x100, x % 0x100]
  }

  function Join(high: nat, low: byte): nat {
    high * 0x100 + low
  }

  function FromBe32(s: seq<byte>): (x: nat)
    requires |s| == 4
    ensures x < WORD
  {
    Join(Join(Join(s[0], s[1]), s[2]), s[3])
  }

  lemma Unjoin(high: nat, low: byte)
    ensures Join(high, low) / 0x100 == high && Join(high, low) % 0x100 == low
  {
  }

  lemma Be32OfBytes(s: seq<byte>)
    requires |s| == 4
    ensures Be32(FromBe32(s)) == s
  {
    var h: nat := s[0];
    var i := Join(h, s[1]);
    var j := Join(i, s[2]);
    Unjoin(h, s[1]);
    Unjoin(i, s[2]);
    Unjoin(j, s[3]);
  }

  lemma BytesOfBe32(x: nat)
    requires x < WORD
    ensures FromBe32(Be32(x)) == x
  {
    var y := x / 0x100;
    var z := y / 0x100;
    assert z / 0x100 % 0x100 == z / 0x100;
    assert Join(z / 0x100, z % 0x100) == z && Join(z, y % 0x100) == y && Join(y, x % 0x100) == x;
  }

  datatype Frame = Frame(kind: nat, id: nat, payload: seq<byte>) {
    predicate Ok() {
      kind < WORD && id < WORD && |payload| < WORD
    }

    function Wire(): seq<byte> {
      Be32(kind) + Be32(id) + Be32(|payload|) + payload
    }
  }

  /** A number at the place `at`, most significant byte first. */
  predicate NumberAt(s: seq<byte>, at: nat, x: nat) {
    at + 4 <= |s| && Number(s[at], s[at + 1], s[at + 2], s[at + 3]) == x
  }

  function Number(a: nat, b: nat, c: nat, d: nat): nat {
    a * 0x100_0000 + b * 0x1_0000 + c * 0x100 + d
  }

  /** What a message is byte by byte: kind, reader id and length, then the payload. */
  lemma WireBytes(f: Frame)
    requires f.Ok()
    ensures var w := f.Wire();
            && |w| == 12 + |f.payload| && w[12..] == f.payload
            && NumberAt(w, 0, f.kind) && NumberAt(w, 4, f.id) && NumberAt(w, 8, |f.payload|)
  {
    hide Be32;
    NumberIs(f.kind);
    NumberIs(f.id);
    NumberIs(|f.payload|);
    var w := f.Wire();
    assert w[0..4] == Be32(f.kind) && w[4..8] == Be32(f.id) && w[8..12] == Be32(|f.payload|);
  }

  lemma NumberIs(x: nat)
    requires x < WORD
    ensures NumberAt(Be32(x), 0, x)
  {
    hide Be32, FromBe32;
    BytesOfBe32(x);
    ValueOf(Be32(x));
  }

  lemma ValueOf(s: seq<byte>)
    requires |s| == 4
    ensures FromBe32(s) == Number(s[0], s[1], s[2], s[3])
  {
    var a: nat, b: nat, c: nat := s[0], s[1], s[2];
    assert Join(a, s[1]) == a * 0x100 + b;
    assert Join(Join(a, s[1]), s[2]) == a * 0x1_0000 + b * 0x100 + c;
  }

  function WireAll(fs: seq<Frame>): seq<byte> {
    if fs == [] then [] else fs[0].Wire() + WireAll(fs[1..])
  }

  predicate AllOk(fs: seq<Frame>) {
    forall i :: 0 <= i < |fs| ==> fs[i].Ok()
  }

  lemma {:induction false} WireSnoc(fs: seq<Frame>, f: Frame)
    ensures WireAll(fs + [f]) == WireAll(fs) + f.Wire()
  {
    if fs == [] {
      assert [f][1..] == [];
      assert WireAll([f]) == f.Wire() + WireAll([]);
    } else {
      calc {
        WireAll(fs + [f]);
        { assert (fs + [f])[0] == fs[0] && (fs + [f])[1..] == fs[1..] + [f]; }
        fs[0].Wire() + WireAll(fs[1..] + [f]);
        { WireSnoc(fs[1..], f); }
        fs[0].Wire() + (WireAll(fs[1..]) + f.Wire());
        { Assoc(fs[0].Wire(), WireAll(fs[1..]), f.Wire()); }
        WireAll(fs) + f.Wire();
      }
    }
  }

  /** The payload length a header states. */
  function LengthIn(s: seq<byte>): nat
    requires |s| >= HEADER_SIZE
  {
    FromBe32(s[8..12])
  }

  predicate HasFrame(s: seq<byte>) {
    |s| >= HEADER_SIZE && |s| >= HEADER_SIZE + LengthIn(s)
  }

  predicate IsFrame(s: seq<byte>) {
    |s| >= HEADER_SIZE && |s| == HEADER_SIZE + LengthIn(s)
  }

  function FrameOf(s: seq<byte>): (f: Frame)
    requires IsFrame(s)
    ensures f.Ok()
  {
    Frame(FromBe32(s[0..4]), FromBe32(s[4..8]), s[12..])
  }

  datatype Split = Split(frames: seq<Frame>, rest: seq<byte>)

  /** Cut a whole stream at the lengths its headers state. */
  function SplitOf(s: seq<byte>): Split
    decreases |s|
  {
    if !HasFrame(s) then Split([], s)
    else
      var n := HEADER_SIZE + LengthIn(s);
      FirstIsFrame(s);
      var r := SplitOf(s[n..]);
      Split([FrameOf(s[..n])] + r.frames, r.rest)
  }

  lemma FirstIsFrame(s: seq<byte>)
    requires HasFrame(s)
    ensures IsFrame(s[..HEADER_SIZE + LengthIn(s)])
  {
    assert s[..HEADER_SIZE + LengthIn(s)][8..12] == s[8..12];
  }

  lemma WireOfFrame(s: seq<byte>)
    requires IsFrame(s)
    ensures FrameOf(s).Wire() == s
  {
    Be32OfBytes(s[0..4]);
    Be32OfBytes(s[4..8]);
    Be32OfBytes(s[8..12]);
    assert s == s[0..4] + s[4..8] + s[8..12] + s[12..];
  }

  lemma FrameOfWire(f: Frame, t: seq<byte>)
    requires f.Ok()
    ensures var s := f.Wire() + t;
            && HasFrame(s) && HEADER_SIZE + LengthIn(s) == |f.Wire()|
            && s[..|f.Wire()|] == f.Wire() && s[|f.Wire()|..] == t
            && IsFrame(f.Wire()) && FrameOf(f.Wire()) == f
  {
    var w := f.Wire();
    BytesOfBe32(f.kind);
    BytesOfBe32(f.id);
    BytesOfBe32(|f.payload|);
    assert w[0..4] == Be32(f.kind) && w[4..8] == Be32(f.id) && w[8..12] == Be32(|f.payload|) && w[12..] == f.payload;
    assert (w + t)[8..12] == w[8..12];
    CutAt(w, t);
  }

  /** Splitting undoes framing, whatever follows. */
  lemma {:induction false} SplitInvertsWire(fs: seq<Frame>, t: seq<byte>)
    requires AllOk(fs)
    ensures SplitOf(WireAll(fs) + t) == Split(fs + SplitOf(t).frames, SplitOf(t).rest)
  {
    if fs == [] {
      assert WireAll(fs) + t == t;
      assert fs + SplitOf(t).frames == SplitOf(t).frames;
    } else {
      var u := WireAll(fs[1..]) + t;
      calc {
        SplitOf(WireAll(fs) + t);
        { Assoc(fs[0].Wire(), WireAll(fs[1..]), t); }
        SplitOf(fs[0].Wire() + u);
        { FrameOfWire(fs[0], u); }
        Split([fs[0]] + SplitOf(u).frames, SplitOf(u).rest);
        { SplitInvertsWire(fs[1..], t); }
        Split([fs[0]] + (fs[1..] + SplitOf(t).frames), SplitOf(t).rest);
        { Assoc([fs[0]], fs[1..], SplitOf(t).frames); assert [fs[0]] + fs[1..] == fs; }
        Split(fs + SplitOf(t).frames, SplitOf(t).rest);
      }
    }
  }

  /** Framing undoes splitting: nothing is lost, and what is left over holds no further frame. */
  lemma {:induction false} WireInvertsSplit(s: seq<byte>)
    ensures var r := SplitOf(s);
            WireAll(r.frames) + r.rest == s && !HasFrame(r.rest) && AllOk(r.frames)
    decreases |s|
  {
    if HasFrame(s) {
      var n := HEADER_SIZE + LengthIn(s);
      FirstIsFrame(s);
      WireOfFrame(s[..n]);
      WireInvertsSplit(s[n..]);
      FrameInFront(FrameOf(s[..n]), SplitOf(s[n..]), s, n);
    } else {
      assert [] + s == s;
    }
  }

  lemma FrameInFront(f: Frame, r: Split, s: seq<byte>, n: nat)
    requires n <= |s| && f.Wire() == s[..n] && WireAll(r.frames) + r.rest == s[n..]
    ensures WireAll([f] + r.frames) + r.rest == s
  {
    assert ([f] + r.frames)[1..] == r.frames;
    Assoc(f.Wire(), WireAll(r.frames), r.rest);
    assert s[..n] + s[n..] == s;
  }

  /** More bytes never change the frames already complete. */
  lemma SplitIsMonotone(s: seq<byte>, t: seq<byte>)
    ensures SplitOf(s).frames <= SplitOf(s + t).frames
  {
    var r := SplitOf(s);
    WireInvertsSplit(s);
    SplitInvertsWire(r.frames, r.rest + t);
    Assoc(WireAll(r.frames), r.rest, t);
  }
}
