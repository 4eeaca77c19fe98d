/** The SimpleTLV format of section 8.4 of GSC-IS 2.1, as src/simpletlv.c reads and writes it.
  * This module says what the format means; `SimpleTlvCodec` holds the code that works on buffers.
  */
module SimpleTlv {
  import opened Bytes

  datatype Member = Member(tag: byte, body: Body)
  datatype Body = Skipped | Leaf(value: seq<byte>) | Compound(children: seq<Member>)

  /** Which half of each record a buffer holds. */
  datatype Mode = TL | Value | Both {
    predicate HasTl() { this != Value }
    predicate HasValue() { this != TL }
  }

  /** Tag and length: one length byte below 255, otherwise 255 and two bytes, low byte first. */
  function TagLength(tag: byte, n: nat): (r: seq<byte>)
    ensures |r| == TagLengthSize(n)
  {
    if n < 0xff then [tag, n] else [tag, 0xff] + Le16(n)
  }

  function TagLengthSize(n: nat): nat {
    if n < 0xff then 2 else 4
  }

  function Encode(tlv: seq<Member>, mode: Mode): seq<byte>
    decreases tlv
  {
    if tlv == [] then [] else EncodeMember(tlv[0], mode) + Encode(tlv[1..], mode)
  }

  function EncodeMember(m: Member, mode: Mode): seq<byte>
    decreases m
  {
    match m.body
    case Skipped => []
    case Leaf(v) => Record(m.tag, v, mode)
    case Compound(cs) => Record(m.tag, Encode(cs, Both), mode)
  }

  function Record(tag: byte, content: seq<byte>, mode: Mode): seq<byte> {
    (if mode.HasTl() then TagLength(tag, |content|) else [])
    + if mode.HasValue() then content else []
  }

  /** The content of a record: a leaf's value, a compound's encoded children. */
  function Content(m: Member): seq<byte>
  {
    match m.body
    case Skipped => []
    case Leaf(v) => v
    case Compound(cs) => Encode(cs, Both)
  }

  /** Compounds cannot be split into a TL buffer and a V buffer. */
  predicate Splittable(tlv: seq<Member>, mode: Mode) {
    mode == Both || forall i :: 0 <= i < |tlv| ==> !tlv[i].body.Compound?
  }

  /** Every tag and length that is written fits the format. A V buffer holds neither. */
  predicate Encodable(tlv: seq<Member>, mode: Mode)
    decreases tlv
  {
    mode == Value || forall i :: 0 <= i < |tlv| ==> MemberEncodable(tlv[i])
  }

  predicate MemberEncodable(m: Member)
    decreases m
  {
    match m.body
    case Skipped => true
    case Leaf(v) => HeaderOk(m.tag, |v|)
    case Compound(cs) => HeaderOk(m.tag, |Encode(cs, Both)|) && Encodable(cs, Both)
  }

  predicate HeaderOk(tag: byte, n: nat) {
    tag != 0x00 && tag != 0xff && n < 0xffff
  }

  /** What a reader of the encoding sees at the top level: skipped members are gone and a
    * compound is a leaf holding its children's bytes. */
  function Tops(tlv: seq<Member>): (r: seq<Member>) {
    if tlv == [] then []
    else if tlv[0].body.Skipped? then Tops(tlv[1..])
    else [Member(tlv[0].tag, Leaf(Content(tlv[0])))] + Tops(tlv[1..])
  }

  predicate Flat(tlv: seq<Member>) {
    forall i :: 0 <= i < |tlv| ==> !tlv[i].body.Compound?
  }

  /** The tree without its skipped members, at every level. */
  function Kept(tlv: seq<Member>): (r: seq<Member>)
    decreases tlv
  {
    if tlv == [] then []
    else if tlv[0].body.Skipped? then Kept(tlv[1..])
    else [KeptMember(tlv[0])] + Kept(tlv[1..])
  }

  function KeptMember(m: Member): Member
    decreases m
  {
    match m.body
    case Skipped => m
    case Leaf(_) => m
    case Compound(cs) => Member(m.tag, Compound(Kept(cs)))
  }

  lemma {:induction false} EncodeConcat(a: seq<Member>, b: seq<Member>, mode: Mode)
    ensures Encode(a + b, mode) == Encode(a, mode) + Encode(b, mode)
  {
    if a == [] {
      assert a + b == b;
    } else {
      calc {
        Encode(a + b, mode);
        { assert (a + b)[0] == a[0] && (a + b)[1..] == a[1..] + b; }
        EncodeMember(a[0], mode) + Encode(a[1..] + b, mode);
        { EncodeConcat(a[1..], b, mode); }
        EncodeMember(a[0], mode) + (Encode(a[1..], mode) + Encode(b, mode));
        { Assoc(EncodeMember(a[0], mode), Encode(a[1..], mode), Encode(b, mode)); }
        Encode(a, mode) + Encode(b, mode);
      }
    }
  }

  /** The loop step of the encoder and of the length function. */
  lemma EncodeSnoc(tlv: seq<Member>, i: nat, mode: Mode)
    requires i < |tlv|
    ensures Encode(tlv[..i + 1], mode) == Encode(tlv[..i], mode) + EncodeMember(tlv[i], mode)
  {
    EncodeConcat(tlv[..i], [tlv[i]], mode);
    assert tlv[..i + 1] == tlv[..i] + [tlv[i]];
    assert Encode([tlv[i]], mode) == EncodeMember(tlv[i], mode) + Encode([], mode);
  }

  /** A prefix never encodes to more bytes than the whole, with room for the next member. */
  lemma EncodeBound(tlv: seq<Member>, i: nat, mode: Mode)
    requires i < |tlv|
    ensures |Encode(tlv[..i], mode)| + |EncodeMember(tlv[i], mode)| <= |Encode(tlv, mode)|
  {
    EncodeSnoc(tlv, i, mode);
    EncodeConcat(tlv[..i + 1], tlv[i + 1..], mode);
    assert tlv == tlv[..i + 1] + tlv[i + 1..];
  }

  /** With no content in any record nothing is written in split modes and no record is kept otherwise. */
  lemma {:induction false} EmptyIsEncodable(tlv: seq<Member>, mode: Mode)
    requires Splittable(tlv, mode) && Encode(tlv, mode) == []
    ensures Encodable(tlv, mode)
  {
    if mode != Value {
      forall i | 0 <= i < |tlv| ensures MemberEncodable(tlv[i]) {
        EncodeBound(tlv, i, mode);
      }
    }
  }

  // ---- Reading ----

  /** One header at the front of `d`, as simpletlv_read_tag accepts it. */
  datatype Header = Header(tag: byte, size: nat, length: nat)

  function ReadHeader(d: seq<byte>): (r: Option<Header>)
    ensures r.Some? ==> 2 <= r.value.size <= |d|
  {
    if |d| < 2 then None
    else if d[1] != 0xff then Some(Header(d[0], 2, d[1]))
    else if |d| < 4 then None
    else Some(Header(d[0], 4, FromLe16(d[2], d[3])))
  }

  /** One complete record at the front of `d`. */
  function ReadRecord(d: seq<byte>): (r: Option<(Member, nat)>)
    ensures r.Some? ==> 2 <= r.value.1 <= |d| && r.value.0.body.Leaf?
  {
    match ReadHeader(d)
    case None => None
    case Some(Header(tag, size, n)) =>
      if n > |d| - size then None
      else Some((Member(tag, Leaf(d[size..size + n])), size + n))
  }

  /** All complete records; whatever follows the last of them is ignored. */
  function Parse(d: seq<byte>): (r: seq<Member>)
    decreases |d|
  {
    match ReadRecord(d)
    case None => []
    case Some((m, n)) => [m] + Parse(d[n..])
  }

  /** How many bytes the complete records take. */
  function Consumed(d: seq<byte>): (n: nat)
    ensures n <= |d|
    decreases |d|
  {
    match ReadRecord(d)
    case None => 0
    case Some((_, n)) => n + Consumed(d[n..])
  }

  lemma HeaderOfTagLength(tag: byte, n: nat, rest: seq<byte>)
    requires HeaderOk(tag, n)
    ensures ReadHeader(TagLength(tag, n) + rest) == Some(Header(tag, TagLengthSize(n), n))
    ensures (TagLength(tag, n) + rest)[TagLengthSize(n)..] == rest
  {
    var d := TagLength(tag, n) + rest;
    if n < 0xff {
      assert d[0] == tag && d[1] == n;
    } else {
      assert d[0] == tag && d[1] == 0xff && d[2] == n % 0x100 && d[3] == n / 0x100;
    }
  }

  lemma RecordIsRead(tag: byte, v: seq<byte>, rest: seq<byte>)
    requires HeaderOk(tag, |v|)
    ensures ReadRecord(Record(tag, v, Both) + rest) == Some((Member(tag, Leaf(v)), |Record(tag, v, Both)|))
    ensures (Record(tag, v, Both) + rest)[|Record(tag, v, Both)|..] == rest
  {
    var d := Record(tag, v, Both) + rest;
    assert d == TagLength(tag, |v|) + (v + rest);
    HeaderOfTagLength(tag, |v|, v + rest);
    assert d[TagLengthSize(|v|)..][..|v|] == v;
  }

  /** The parser's step, given its first record. */
  lemma ParseStep(d: seq<byte>, m: Member, n: nat, rest: seq<byte>)
    requires ReadRecord(d) == Some((m, n)) && d[n..] == rest
    ensures Parse(d) == [m] + Parse(rest) && Consumed(d) == n + Consumed(rest)
  {
  }

  lemma ParseOneThen(m: Member, rest: seq<byte>)
    requires MemberEncodable(m) && !m.body.Skipped?
    ensures Parse(EncodeMember(m, Both) + rest) == [Member(m.tag, Leaf(Content(m)))] + Parse(rest)
    ensures Consumed(EncodeMember(m, Both) + rest) == |EncodeMember(m, Both)| + Consumed(rest)
  {
    var r := Record(m.tag, Content(m), Both);
    assert EncodeMember(m, Both) == r;
    RecordIsRead(m.tag, Content(m), rest);
    ParseStep(r + rest, Member(m.tag, Leaf(Content(m))), |r|, rest);
  }

  /** Parsing an encoding followed by anything gives the members back, then parses the rest. */
  lemma {:induction false} ParseEncodeThen(tlv: seq<Member>, rest: seq<byte>)
    requires Encodable(tlv, Both)
    ensures Parse(Encode(tlv, Both) + rest) == Tops(tlv) + Parse(rest)
    ensures Consumed(Encode(tlv, Both) + rest) == |Encode(tlv, Both)| + Consumed(rest)
  {
    hide Parse, Consumed;
    if tlv == [] {
      assert Encode(tlv, Both) + rest == rest;
    } else {
      var head, tail := EncodeMember(tlv[0], Both), Encode(tlv[1..], Both);
      ParseEncodeThen(tlv[1..], rest);
      Assoc(head, tail, rest);
      assert MemberEncodable(tlv[0]);
      if tlv[0].body.Skipped? {
        assert head + tail == tail;
      } else {
        ParseOneThen(tlv[0], tail + rest);
        Assoc([Member(tlv[0].tag, Leaf(Content(tlv[0])))], Tops(tlv[1..]), Parse(rest));
      }
    }
  }

  lemma {:induction false} FlatTops(tlv: seq<Member>)
    requires Flat(tlv)
    ensures Tops(tlv) == Kept(tlv)
  {
    if tlv != [] {
      FlatTops(tlv[1..]);
    }
  }

  /** The parser undoes the encoder: on a flat list it returns every member that is not skipped,
    * on a tree each top-level value is the encoding of the children, and nothing is left over. */
  lemma ParseInvertsEncode(tlv: seq<Member>)
    requires Encodable(tlv, Both)
    ensures Parse(Encode(tlv, Both)) == Tops(tlv)
    ensures Flat(tlv) ==> Parse(Encode(tlv, Both)) == Kept(tlv)
    ensures Consumed(Encode(tlv, Both)) == |Encode(tlv, Both)|
  {
    ParseEncodeThen(tlv, []);
    assert Encode(tlv, Both) + [] == Encode(tlv, Both);
    if Flat(tlv) {
      FlatTops(tlv);
    }
  }

  /** A record found in a shorter buffer is found, identical, in any extension of it. */
  lemma ReadRecordExtends(d: seq<byte>, e: seq<byte>)
    requires ReadRecord(d).Some?
    ensures ReadRecord(d + e) == ReadRecord(d)
    ensures (d + e)[ReadRecord(d).value.1..] == d[ReadRecord(d).value.1..] + e
  {
    hide ReadHeader;
    var Header(tag, size, n) := ReadHeader(d).value;
    HeaderExtends(d, e);
    assert (d + e)[size..size + n] == d[size..size + n];
  }

  lemma HeaderExtends(d: seq<byte>, e: seq<byte>)
    requires ReadHeader(d).Some?
    ensures ReadHeader(d + e) == ReadHeader(d)
  {
    var w := d + e;
    assert w[0] == d[0] && w[1] == d[1];
    if d[1] == 0xff {
      assert w[2] == d[2] && w[3] == d[3];
    }
  }

  /** Parsing a truncated buffer gives a prefix of parsing the whole. */
  lemma {:induction false} ParseTruncation(d: seq<byte>, e: seq<byte>)
    ensures Parse(d) <= Parse(d + e)
    decreases |d|
  {
    if ReadRecord(d).Some? {
      ReadRecordExtends(d, e);
      ParseTruncation(d[ReadRecord(d).value.1..], e);
    }
  }

  /** A fully consumed buffer can be extended: the records of the extension follow. */
  lemma {:induction false} ParseConcat(d: seq<byte>, e: seq<byte>)
    requires Consumed(d) == |d|
    ensures Parse(d + e) == Parse(d) + Parse(e)
    ensures Consumed(d + e) == |d| + Consumed(e)
    decreases |d|
  {
    if ReadRecord(d).None? {
      assert d + e == e;
    } else {
      var (m, n) := ReadRecord(d).value;
      ParseConcat(d[n..], e);
      ReadRecordExtends(d, e);
      ParseStep(d, m, n, d[n..]);
      ParseStep(d + e, m, n, d[n..] + e);
      Assoc([m], Parse(d[n..]), Parse(e));
    }
  }

  lemma {:induction false} ParseIsFlat(d: seq<byte>)
    ensures forall i :: 0 <= i < |Parse(d)| ==> Parse(d)[i].body.Leaf?
    ensures Kept(Parse(d)) == Parse(d)
    decreases |d|
  {
    if ReadRecord(d).Some? {
      var n := ReadRecord(d).value.1;
      ParseIsFlat(d[n..]);
      assert Parse(d)[1..] == Parse(d[n..]);
    }
  }

  /** Whatever bytes came in, encoding what was parsed and parsing again changes nothing. */
  lemma ReparseIsIdentity(d: seq<byte>)
    requires Encodable(Parse(d), Both)
    ensures Parse(Encode(Parse(d), Both)) == Parse(d)
  {
    ParseIsFlat(d);
    ParseInvertsEncode(Parse(d));
  }

  /** The record at the front is written as the format demands: a proper tag, and the long form only for a length that
    * needs it and that it can hold. */
  predicate ShortestForm(d: seq<byte>, m: Member, n: nat)
    requires |d| >= 2 && m.body.Leaf?
  {
    && m.tag != 0x00 && m.tag != 0xff && |m.body.value| < 0xffff
    && (|m.body.value| < 0xff ==> n == 2 + |m.body.value|)
  }

  /** All complete records are. */
  predicate AllShortest(d: seq<byte>)
    decreases |d|
  {
    match ReadRecord(d)
    case None => true
    case Some((m, n)) => ShortestForm(d, m, n) && AllShortest(d[n..])
  }

  /** One record that was read, encoded again. */
  lemma RecordAgain(d: seq<byte>)
    requires ReadRecord(d).Some?
    ensures var (m, n) := ReadRecord(d).value;
            && |EncodeMember(m, Both)| <= n
            && (|EncodeMember(m, Both)| == n <==> |m.body.value| < 0xff ==> n == 2 + |m.body.value|)
            && (ShortestForm(d, m, n) ==> EncodeMember(m, Both) == d[..n])
  {
    var (m, n) := ReadRecord(d).value;
    var v := m.body.value;
    assert EncodeMember(m, Both) == TagLength(m.tag, |v|) + v;
    if d[1] != 0xff {
      assert d[..n] == [d[0], d[1]] + v;
    } else {
      assert d[..n] == [d[0], d[1], d[2], d[3]] + v;
      if |v| >= 0xff {
        LongHeaderAgain(d[2], d[3]);
      }
    }
  }

  lemma LongHeaderAgain(lo: byte, hi: byte)
    ensures Le16(FromLe16(lo, hi)) == [lo, hi]
  {
  }

  lemma {:induction false} EncodedLength(d: seq<byte>)
    ensures |Encode(Parse(d), Both)| <= Consumed(d)
    decreases |d|
  {
    if ReadRecord(d).Some? {
      var (m, n) := ReadRecord(d).value;
      ParseStep(d, m, n, d[n..]);
      RecordAgain(d);
      EncodedLength(d[n..]);
      EncodeCons(m, Parse(d[n..]));
    }
  }

  lemma EncodeCons(m: Member, rest: seq<Member>)
    ensures Encode([m] + rest, Both) == EncodeMember(m, Both) + Encode(rest, Both)
    ensures Encodable([m] + rest, Both) <==> MemberEncodable(m) && Encodable(rest, Both)
  {
    assert ([m] + rest)[1..] == rest;
    assert forall i :: 0 < i < |[m] + rest| ==> ([m] + rest)[i] == rest[i - 1];
    assert forall i :: 0 <= i < |rest| ==> rest[i] == ([m] + rest)[i + 1];
  }

  /** Two pieces that are not too long fill a stretch exactly when each fills its own part. */
  lemma FillBoth(a: seq<byte>, b: seq<byte>, d: seq<byte>, n: nat, k: nat)
    requires |a| <= n && |b| <= k && n + k <= |d|
    ensures a + b == d[..n + k] <==> a == d[..n] && b == d[n..][..k]
  {
    assert d[..n + k] == d[..n] + d[n..][..k];
    if a + b == d[..n + k] {
      assert |a| == n && |b| == k;
      assert a == (a + b)[..n] && b == (a + b)[n..];
    }
  }

  /** Encoding what was parsed gives the bytes back, as far as they were read, if and only if every record was in its
    * shortest form with a proper tag and length. */
  lemma {:induction false} EncodeInvertsParse(d: seq<byte>)
    ensures Encodable(Parse(d), Both) && Encode(Parse(d), Both) == d[..Consumed(d)] <==> AllShortest(d)
    decreases |d|
  {
    hide EncodeMember, Encode, Encodable, ReadRecord;
    if ReadRecord(d).Some? {
      var (m, n) := ReadRecord(d).value;
      var rest := d[n..];
      ParseStep(d, m, n, rest);
      RecordAgain(d);
      EncodedLength(rest);
      EncodeCons(m, Parse(rest));
      EncodeInvertsParse(rest);
      FillBoth(EncodeMember(m, Both), Encode(Parse(rest), Both), d, n, Consumed(rest));
    } else {
      NothingAgain(d);
    }
  }

  lemma NothingAgain(d: seq<byte>)
    requires ReadRecord(d).None?
    ensures Encodable(Parse(d), Both) && Encode(Parse(d), Both) == d[..Consumed(d)]
  {
  }

  // ---- Recovering trees ----

  datatype Shape = LeafShape | CompoundShape(shapes: seq<Shape>)

  /** The shape of what the encoding of a tree shows: skipped members leave no trace. */
  function ShapeOf(tlv: seq<Member>): (r: seq<Shape>)
    decreases tlv
  {
    if tlv == [] then []
    else if tlv[0].body.Skipped? then ShapeOf(tlv[1..])
    else [ShapeOfMember(tlv[0])] + ShapeOf(tlv[1..])
  }

  function ShapeOfMember(m: Member): Shape
    decreases m
  {
    match m.body
    case Compound(cs) => CompoundShape(ShapeOf(cs))
    case _ => LeafShape
  }

  /** Decode `d` knowing which members are compound. */
  function DecodeShape(d: seq<byte>, shapes: seq<Shape>): (r: Option<seq<Member>>)
    decreases shapes
  {
    if shapes == [] then (if d == [] then Some([]) else None)
    else
      match ReadRecord(d)
      case None => None
      case Some((m, n)) =>
        var head := DecodeValue(m, shapes[0]);
        var tail := DecodeShape(d[n..], shapes[1..]);
        if head.None? || tail.None? then None else Some([head.value] + tail.value)
  }

  function DecodeValue(m: Member, shape: Shape): (r: Option<Member>)
    requires m.body.Leaf?
    decreases shape
  {
    match shape
    case LeafShape => Some(m)
    case CompoundShape(shapes) =>
      match DecodeShape(m.body.value, shapes)
      case None => None
      case Some(cs) => Some(Member(m.tag, Compound(cs)))
  }

  /** Knowing the shape is enough to recover the whole tree from its bytes. */
  lemma {:induction false} DecodeShapeInvertsEncode(tlv: seq<Member>)
    requires Encodable(tlv, Both)
    ensures DecodeShape(Encode(tlv, Both), ShapeOf(tlv)) == Some(Kept(tlv))
    decreases tlv
  {
    if tlv != [] {
      DecodeShapeInvertsEncode(tlv[1..]);
      assert MemberEncodable(tlv[0]);
      if !tlv[0].body.Skipped? {
        var tail := Encode(tlv[1..], Both);
        RecordIsRead(tlv[0].tag, Content(tlv[0]), tail);
        assert Encode(tlv, Both) == Record(tlv[0].tag, Content(tlv[0]), Both) + tail;
        DecodeMemberValue(tlv[0]);
      } else {
        assert Encode(tlv, Both) == Encode(tlv[1..], Both);
      }
    }
  }

  lemma {:induction false} DecodeMemberValue(m: Member)
    requires MemberEncodable(m) && !m.body.Skipped?
    ensures DecodeValue(Member(m.tag, Leaf(Content(m))), ShapeOfMember(m)) == Some(KeptMember(m))
    decreases m
  {
    if m.body.Compound? {
      DecodeShapeInvertsEncode(m.body.children);
    }
  }

  /** For a fixed shape the bytes determine the tree. */
  lemma EncodeIsInjective(a: seq<Member>, b: seq<Member>)
    requires Encodable(a, Both) && Encodable(b, Both)
    requires ShapeOf(a) == ShapeOf(b) && Encode(a, Both) == Encode(b, Both)
    ensures Kept(a) == Kept(b)
  {
    DecodeShapeInvertsEncode(a);
    DecodeShapeInvertsEncode(b);
  }

  /** Without the shape they do not: a leaf holding a record looks like a compound. */
  lemma EncodeNeedsTheShape()
    ensures var inner := [Member(0x25, Leaf([0x12, 0x14]))];
            var leaf := [Member(0x72, Leaf(Encode(inner, Both)))];
            var tree := [Member(0x72, Compound(inner))];
            Encodable(leaf, Both) && Encodable(tree, Both)
            && Encode(leaf, Both) == Encode(tree, Both) && Kept(leaf) != Kept(tree)
  {
    var inner := [Member(0x25, Leaf([0x12, 0x14]))];
    var tree := [Member(0x72, Compound(inner))];
    assert Encode(inner, Both) == [0x25, 0x02, 0x12, 0x14] by {
      assert Encode(inner[1..], Both) == [];
    }
    assert Encodable(inner, Both);
    assert Kept(tree)[0].body.Compound?;
  }

  // ---- The split form ----

  /** Cut a V buffer by the lengths of a TL buffer. */
  function Cut(tl: seq<byte>, v: seq<byte>): (r: Option<seq<Member>>)
    decreases |tl|
  {
    if tl == [] then (if v == [] then Some([]) else None)
    else
      match ReadHeader(tl)
      case None => None
      case Some(Header(tag, size, n)) =>
        if n > |v| then None
        else
          match Cut(tl[size..], v[n..])
          case None => None
          case Some(rest) => Some([Member(tag, Leaf(v[..n]))] + rest)
  }

  lemma {:induction false} CutRecovers(tlv: seq<Member>)
    requires Flat(tlv) && Encodable(tlv, TL)
    ensures Cut(Encode(tlv, TL), Encode(tlv, Value)) == Some(Kept(tlv))
  {
    hide Cut, HeaderOk, TagLength, EncodeMember;
    CutNothing();
    if tlv != [] {
      CutRecovers(tlv[1..]);
      var tl, vs := Encode(tlv[1..], TL), Encode(tlv[1..], Value);
      assert MemberEncodable(tlv[0]);
      Halves(tlv[0]);
      if tlv[0].body.Leaf? {
        CutOne(tlv[0].tag, tlv[0].body.value, tl, vs);
      } else {
        assert [] + tl == tl && [] + vs == vs;
      }
    }
  }

  /** What one flat member adds to each half. */
  lemma Halves(m: Member)
    requires !m.body.Compound?
    ensures m.body.Skipped? ==> EncodeMember(m, TL) == [] && EncodeMember(m, Value) == []
    ensures m.body.Leaf? ==> EncodeMember(m, TL) == TagLength(m.tag, |m.body.value|)
                             && EncodeMember(m, Value) == m.body.value
  {
  }

  lemma CutNothing()
    ensures Cut([], []) == Some([])
  {
  }

  lemma CutOne(tag: byte, v: seq<byte>, tl: seq<byte>, vs: seq<byte>)
    requires HeaderOk(tag, |v|) && Cut(tl, vs).Some?
    ensures Cut(TagLength(tag, |v|) + tl, v + vs) == Some([Member(tag, Leaf(v))] + Cut(tl, vs).value)
  {
    HeaderOfTagLength(tag, |v|, tl);
    assert (v + vs)[..|v|] == v && (v + vs)[|v|..] == vs;
  }

  /** The two buffers of the split form say exactly what the joined form says. */
  lemma CutInvertsSplit(tlv: seq<Member>)
    requires Flat(tlv) && Encodable(tlv, TL)
    ensures Cut(Encode(tlv, TL), Encode(tlv, Value)) == Some(Kept(tlv))
    ensures Cut(Encode(tlv, TL), Encode(tlv, Value)) == Some(Parse(Encode(tlv, Both)))
  {
    ParseInvertsEncode(tlv);
    CutRecovers(tlv);
  }

  /** The three lengths add up, whatever the members hold. */
  lemma {:induction false} SplitLengths(tlv: seq<Member>)
    ensures |Encode(tlv, TL)| + |Encode(tlv, Value)| == |Encode(tlv, Both)|
  {
    if tlv != [] {
      SplitLengths(tlv[1..]);
    }
  }
}
