/** Command APDUs: the class byte and the seven length cases of section 5.3.2 of ISO/IEC 7816-4:1995,
  * as src/card_7816.c decodes them. */
module Apdus {
  import opened Bytes

  type Status = s: int | 0 <= s < 0x1_0000

  const SUCCESS: Status := 0x9000
  const WRONG_LENGTH: Status := 0x6700

  datatype GenType = Iso | Rfu | Pts | Proprietary

  /** The body and the expected length, as the seven cases of the standard combine them. */
  datatype Form =
    | Case1
    | Case2S(le: nat)
    | Case2E(le: nat)
    | Case3S(body: seq<byte>)
    | Case3E(body: seq<byte>)
    | Case4S(body: seq<byte>, le: nat)
    | Case4E(body: seq<byte>, le: nat)
  {
    function Body(): seq<byte> {
      if Case3S? || Case3E? || Case4S? || Case4E? then body else []
    }

    function Le(): nat {
      if Case2S? || Case2E? || Case4S? || Case4E? then le else 0
    }

    predicate InRange() {
      && (Case2S? || Case4S? ==> 1 <= le <= 256)
      && (Case2E? || Case4E? ==> 1 <= le <= 65536)
      && (Case3S? || Case4S? ==> 1 <= |body| <= 255)
      && (Case3E? || Case4E? ==> 1 <= |body| <= 65535)
    }

    /** The bytes behind the four header bytes. */
    function Tail(): seq<byte>
      requires InRange()
    {
      match this
      case Case1 => []
      case Case2S(le) => [le % 0x100]
      case Case2E(le) => [0] + Be16(le % 0x1_0000)
      case Case3S(body) => [|body|] + body
      case Case3E(body) => [0] + Be16(|body|) + body
      case Case4S(body, le) => [|body|] + body + [le % 0x100]
      case Case4E(body, le) => [0] + Be16(|body|) + body + Be16(le % 0x1_0000)
    }
  }

  /** The short or the extended case for a body and an Le, where no Le is zero. */
  function FormFor(body: seq<byte>, le: nat, extended: bool): (f: Form)
    requires le <= 65536 && |body| <= 65535 && (!extended ==> le <= 256 && |body| <= 255)
    ensures f.InRange() && f.Body() == body && f.Le() == le
  {
    if body == [] then if le == 0 then Case1 else if extended then Case2E(le) else Case2S(le)
    else if extended then if le == 0 then Case3E(body) else Case4E(body, le)
    else if le == 0 then Case3S(body) else Case4S(body, le)
  }

  function Be16(x: nat): seq<byte>
    requires x < 0x1_0000
  {
    [x / 0x100, x % 0x100]
  }

  function FromBe16(hi: byte, lo: byte): nat {
    FromLe16(lo, hi)
  }

  datatype Apdu = Apdu(cla: byte, ins: byte, p1: byte, p2: byte, lc: nat, le: nat, body: seq<byte>,
                       channel: nat, secureMessaging: nat, classType: nat, genType: GenType)

  datatype Decoded = Ok(apdu: Apdu) | Err(status: Status)

  // ---- The class byte ----

  predicate BasicClass(cla: byte) {
    var t := cla / 0x10;
    t == 0x0 || t == 0x8 || t == 0x9 || t == 0xa
  }

  /** cla & 3 for the basic classes, otherwise zero. */
  function Channel(cla: byte): (c: nat)
    ensures c < 4
  {
    if BasicClass(cla) then cla % 4 else 0
  }

  /** cla & 0xe for the basic classes: the mask overlaps the upper channel bit. */
  function SecureMessaging(cla: byte): (m: nat)
    ensures m < 0x10
    ensures BasicClass(cla) && Channel(cla) >= 2 ==> m != 0
  {
    if BasicClass(cla) then (cla % 0x10) / 2 * 2 else 0
  }

  function GenTypeOf(cla: byte): GenType {
    var t := cla / 0x10;
    if 1 <= t <= 7 then Rfu
    else if t >= 0xd then (if cla == 0xff then Pts else Proprietary)
    else Iso
  }

  /** What each class byte means, by its two digits. Upper digit 0, 8, 9 or A: the low two bits are the channel, and the
    * bits 2, 4 and 8 the secure messaging. Any other: neither. */
  predicate ClassMeans(cla: byte, channel: nat, secureMessaging: nat, genType: GenType) {
    var high, low := cla / 0x10, cla % 0x10;
    && (if high == 0x0 || high == 0x8 || high == 0x9 || high == 0xa then
          channel == LowBits(low) && secureMessaging == UpperBits(low)
        else channel == 0 && secureMessaging == 0)
    && (genType == Rfu <==> 0x10 <= cla <= 0x7f)
    && (genType == Pts <==> cla == 0xff)
    && (genType == Proprietary <==> 0xd0 <= cla <= 0xfe)
    && (genType == Iso <==> cla <= 0x0f || 0x80 <= cla <= 0xcf)
  }

  /** Bits 1 and 2 of a digit. */
  function LowBits(x: nat): nat {
    (if x % 2 == 1 then 1 else 0) + if x / 2 % 2 == 1 then 2 else 0
  }

  /** Bits 2, 4 and 8 of a digit. */
  function UpperBits(x: nat): nat {
    (if x / 2 % 2 == 1 then 2 else 0) + (if x / 4 % 2 == 1 then 4 else 0) + if x / 8 % 2 == 1 then 8 else 0
  }

  lemma DigitBits(x: nat)
    requires x < 0x10
    ensures x % 4 == LowBits(x) && x / 2 * 2 == UpperBits(x)
  {
    var half := x / 2;
    assert half == 0 || half == 1 || half == 2 || half == 3 || half == 4 || half == 5 || half == 6 || half == 7;
  }

  lemma ClassByteMeans(cla: byte)
    ensures ClassMeans(cla, Channel(cla), SecureMessaging(cla), GenTypeOf(cla))
  {
    hide LowBits, UpperBits;
    DigitBits(cla % 0x10);
    assert cla % 0x10 % 4 == cla % 4;
  }

  /** Two class bytes of the basic kinds address the same channel if and only if they agree modulo 4; every other
    * class byte addresses channel 0. */
  lemma SameChannel(a: byte, b: byte)
    requires (a <= 0x0f || 0x80 <= a <= 0xaf) && (b <= 0x0f || 0x80 <= b <= 0xaf)
    ensures Channel(a) == Channel(b) <==> a % 4 == b % 4
  {
  }

  /** Without secure messaging only channels 0 and 1 can be addressed. */
  lemma UpperChannelsNeedSecureMessaging(cla: byte)
    ensures SecureMessaging(cla) == 0 && Channel(cla) != 0 ==> Channel(cla) == 1
  {
  }

  // ---- The length cases ----

  /** Which case the raw bytes are, by the tests of vcard_apdu_set_length. */
  function Classify(raw: seq<byte>): (f: Option<Form>)
    requires 4 <= |raw|
  {
    var l := |raw| - 4;
    if l == 0 then Some(Case1)
    else if l == 1 then Some(Case2S(if raw[4] != 0 then raw[4] else 256))
    else if raw[4] == 0 then
      if l < 3 then None
      else
        var n := FromBe16(raw[5], raw[6]);
        if l == 3 then Some(Case2E(if n != 0 then n else 65536))
        else if n == 0 then None
        else if l == n + 3 then Some(Case3E(raw[7..]))
        else if l == n + 5 then Some(Case4E(raw[7..7 + n], LongLe(raw[|raw| - 2], raw[|raw| - 1])))
        else None
    else if l - 1 == raw[4] then Some(Case3S(raw[5..]))
    else if l - 2 == raw[4] then
      Some(Case4S(raw[5..5 + raw[4]], if raw[|raw| - 1] != 0 then raw[|raw| - 1] else 256))
    else None
  }

  function LongLe(hi: byte, lo: byte): nat {
    if FromBe16(hi, lo) != 0 then FromBe16(hi, lo) else 65536
  }

  /** vcard_apdu_new. */
  function Decode(raw: seq<byte>): Decoded {
    if |raw| < 4 then Err(WRONG_LENGTH)
    else
      match Classify(raw)
      case None => Err(WRONG_LENGTH)
      case Some(f) =>
        Ok(Apdu(raw[0], raw[1], raw[2], raw[3], |f.Body()|, f.Le(), f.Body(),
                Channel(raw[0]), SecureMessaging(raw[0]), raw[0] / 0x10 * 0x10, GenTypeOf(raw[0])))
  }

  /** Where the pieces of a short command lie. */
  lemma ShortLayout(header: seq<byte>, body: seq<byte>, last: seq<byte>)
    requires |header| == 4 && 1 <= |body| <= 255
    ensures var raw := header + ([|body|] + body + last);
            && |raw| == 5 + |body| + |last| && raw[4] == |body|
            && raw[5..5 + |body|] == body && raw[5 + |body|..] == last
  {
    var raw := header + ([|body|] + body + last);
    assert raw[5..5 + |body|] == body;
    assert raw[5 + |body|..] == last;
  }

  /** Where the pieces of an extended command lie. */
  lemma ExtendedLayout(header: seq<byte>, n: nat, body: seq<byte>, last: seq<byte>)
    requires |header| == 4 && n < 0x1_0000
    ensures var raw := header + ([0] + Be16(n) + body + last);
            && |raw| == 7 + |body| + |last| && raw[4] == 0 && FromBe16(raw[5], raw[6]) == n
            && raw[7..7 + |body|] == body && raw[7 + |body|..] == last
  {
    var raw := header + ([0] + Be16(n) + body + last);
    assert raw[7..7 + |body|] == body;
    assert raw[7 + |body|..] == last;
  }

  lemma ClassifyShort(header: seq<byte>, body: seq<byte>, le: nat)
    requires |header| == 4 && 1 <= |body| <= 255 && 1 <= le <= 256
    ensures Classify(header + ([|body|] + body)) == Some(Case3S(body))
    ensures Classify(header + ([|body|] + body + [le % 0x100])) == Some(Case4S(body, le))
  {
    var with := header + ([|body|] + body + [le % 0x100]);
    ShortLayout(header, body, [le % 0x100]);
    assert with[5 + |body|] == with[5 + |body|..][0];
    var without := header + ([|body|] + body + []);
    ShortLayout(header, body, []);
    assert without[5..] == without[5..5 + |body|];
    assert [|body|] + body + [] == [|body|] + body;
  }

  lemma ClassifyExtendedBody(header: seq<byte>, body: seq<byte>)
    requires |header| == 4 && 1 <= |body| <= 65535
    ensures Classify(header + ([0] + Be16(|body|) + body)) == Some(Case3E(body))
  {
    var raw := header + ([0] + Be16(|body|) + body + []);
    ExtendedLayout(header, |body|, body, []);
    assert raw[7..] == raw[7..7 + |body|];
    assert [0] + Be16(|body|) + body + [] == [0] + Be16(|body|) + body;
  }

  lemma ClassifyExtendedBoth(header: seq<byte>, body: seq<byte>, le: nat)
    requires |header| == 4 && 1 <= |body| <= 65535 && 1 <= le <= 65536
    ensures Classify(header + ([0] + Be16(|body|) + body + Be16(le % 0x1_0000))) == Some(Case4E(body, le))
  {
    var last := Be16(le % 0x1_0000);
    var raw := header + ([0] + Be16(|body|) + body + last);
    ExtendedLayout(header, |body|, body, last);
    assert raw[|raw| - 2] == raw[7 + |body|..][0] && raw[|raw| - 1] == raw[7 + |body|..][1];
    LongLeInverts(le);
  }

  lemma LongLeInverts(le: nat)
    requires 1 <= le <= 65536
    ensures LongLe(Be16(le % 0x1_0000)[0], Be16(le % 0x1_0000)[1]) == le
  {
  }

  lemma ClassifyLe(header: seq<byte>, le: nat)
    requires |header| == 4 && 1 <= le <= 65536
    ensures Classify(header) == Some(Case1)
    ensures le <= 256 ==> Classify(header + [le % 0x100]) == Some(Case2S(le))
    ensures Classify(header + ([0] + Be16(le % 0x1_0000))) == Some(Case2E(le))
  {
    LongLeInverts(le);
    var raw := header + ([0] + Be16(le % 0x1_0000));
    assert raw[5] == Be16(le % 0x1_0000)[0] && raw[6] == Be16(le % 0x1_0000)[1];
  }

  /** The decoder accepts every well-formed case and reports its body and Le. */
  lemma ClassifyInvertsTail(header: seq<byte>, f: Form)
    requires |header| == 4 && f.InRange()
    ensures Classify(header + f.Tail()) == Some(f)
  {
    match f
    case Case1 =>
      assert header + f.Tail() == header;
      ClassifyLe(header, 1);
    case Case2S(le) => ClassifyLe(header, le);
    case Case2E(le) => ClassifyLe(header, le);
    case Case3S(body) => ClassifyShort(header, body, 1);
    case Case4S(body, le) => ClassifyShort(header, body, le);
    case Case3E(body) => ClassifyExtendedBody(header, body);
    case Case4E(body, le) => ClassifyExtendedBoth(header, body, le);
  }

  /** It accepts nothing else: what it accepts is the encoding of what it reports. */
  lemma TailInvertsClassify(raw: seq<byte>)
    requires 4 <= |raw| && Classify(raw).Some?
    ensures Classify(raw).value.InRange()
    ensures raw == raw[..4] + Classify(raw).value.Tail()
  {
    assert raw == raw[..4] + raw[4..];
    if |raw| > 5 {
      if raw[4] == 0 {
        ExtendedTail(raw);
      } else {
        ShortTail(raw);
      }
    }
  }

  lemma ShortTail(raw: seq<byte>)
    requires 5 < |raw| && raw[4] != 0 && Classify(raw).Some?
    ensures Classify(raw).value.InRange() && raw[4..] == Classify(raw).value.Tail()
  {
    var n := |raw| - 5;
    if n == raw[4] {
      assert raw[4..] == [n] + raw[5..];
    } else {
      var last := raw[|raw| - 1];
      assert raw[4..] == [raw[4]] + raw[5..5 + raw[4]] + [last];
    }
  }

  lemma ExtendedTail(raw: seq<byte>)
    requires 5 < |raw| && raw[4] == 0 && Classify(raw).Some?
    ensures Classify(raw).value.InRange() && raw[4..] == Classify(raw).value.Tail()
  {
    var n := FromBe16(raw[5], raw[6]);
    Be16Inverts(raw[5], raw[6]);
    if |raw| == 7 {
      assert raw[4..] == [raw[4]] + [raw[5], raw[6]];
    } else if |raw| == n + 7 {
      assert raw[4..] == [raw[4]] + [raw[5], raw[6]] + raw[7..];
    } else {
      var hi, lo := raw[|raw| - 2], raw[|raw| - 1];
      Be16Inverts(hi, lo);
      assert raw[4..] == [raw[4]] + [raw[5], raw[6]] + raw[7..7 + n] + [hi, lo];
    }
  }

  lemma Be16Inverts(hi: byte, lo: byte)
    ensures Be16(FromBe16(hi, lo)) == [hi, lo]
    ensures Be16(LongLe(hi, lo) % 0x1_0000) == [hi, lo]
  {
    var x := FromBe16(hi, lo);
    assert x == hi * 256 + lo;
    assert x / 0x100 == hi && x % 0x100 == lo;
    assert LongLe(hi, lo) % 0x1_0000 == x;
  }

  /** The seven cases are exclusive: equal bytes come from equal headers, bodies and Le. */
  lemma CasesAreExclusive(h: seq<byte>, f: Form, k: seq<byte>, g: Form)
    requires |h| == 4 && |k| == 4 && f.InRange() && g.InRange()
    requires h + f.Tail() == k + g.Tail()
    ensures h == k && f == g
  {
    ClassifyInvertsTail(h, f);
    ClassifyInvertsTail(k, g);
    assert h == (h + f.Tail())[..4] == (k + g.Tail())[..4] == k;
  }

  /** Decoding is exact: a byte string is accepted if and only if it is one of the seven cases. */
  lemma DecodeIsExact(raw: seq<byte>)
    ensures Decode(raw).Ok? <==>
            4 <= |raw| && exists f: Form :: f.InRange() && raw == raw[..4] + f.Tail()
  {
    if |raw| >= 4 {
      if Classify(raw).Some? {
        TailInvertsClassify(raw);
      }
      if f: Form :| f.InRange() && raw == raw[..4] + f.Tail() {
        ClassifyInvertsTail(raw[..4], f);
      }
    }
  }

  /** What an accepted APDU can hold: the body is a slice of the raw bytes. */
  lemma DecodeBounds(raw: seq<byte>)
    requires Decode(raw).Ok?
    ensures var a := Decode(raw).apdu;
            a.lc == |a.body| <= 65535 && a.le <= 65536 && a.channel < 4
            && (a.body == [] || exists i :: 4 < i <= |raw| - a.lc && a.body <= raw[i..])
  {
    hide Be16, Classify;
    TailInvertsClassify(raw);
    BodyIsSlice(raw, Classify(raw).value);
  }

  lemma BodyIsSlice(raw: seq<byte>, f: Form)
    requires f.InRange() && 4 <= |raw| && raw == raw[..4] + f.Tail()
    ensures f.Body() == [] || exists i :: 4 < i <= |raw| - |f.Body()| && f.Body() <= raw[i..]
  {
    hide Be16;
    if f.Body() != [] {
      var at := if f.Case3S? || f.Case4S? then 5 else 7;
      BodyStarts(f);
      assert raw[at..] == f.Tail()[at - 4..];
    }
  }

  /** Where the body starts behind the header. */
  lemma BodyStarts(f: Form)
    requires f.InRange() && f.Body() != []
    ensures var at := if f.Case3S? || f.Case4S? then 1 else 3;
            at + |f.Body()| <= |f.Tail()| && f.Body() <= f.Tail()[at..]
  {
    match f
    case Case3S(body) => MiddleOf([|body|], body, []); assert [|body|] + body + [] == f.Tail();
    case Case4S(body, le) => MiddleOf([|body|], body, [le % 0x100]);
    case Case3E(body) =>
      MiddleOf([0] + Be16(|body|), body, []);
      assert [0] + Be16(|body|) + body + [] == f.Tail();
    case Case4E(body, le) => MiddleOf([0] + Be16(|body|), body, Be16(le % 0x1_0000));
    case _ =>
  }

  /** The command a host wants to send, in the case that fits its body and Le. */
  function Command(cla: byte, ins: byte, p1: byte, p2: byte, f: Form): seq<byte>
    requires f.InRange()
  {
    [cla, ins, p1, p2] + f.Tail()
  }

  lemma DecodeCommand(cla: byte, ins: byte, p1: byte, p2: byte, f: Form)
    requires f.InRange()
    ensures Decode(Command(cla, ins, p1, p2, f))
         == Ok(Apdu(cla, ins, p1, p2, |f.Body()|, f.Le(), f.Body(), Channel(cla), SecureMessaging(cla),
                    cla / 0x10 * 0x10, GenTypeOf(cla)))
  {
    ClassifyInvertsTail([cla, ins, p1, p2], f);
  }

  // ---- The decoder itself ----

  /** The APDU structure while vcard_apdu_new fills it in. */
  class VCardApdu {
    const data: seq<byte>
    var lc: nat
    var le: nat
    var body: seq<byte>
    var channel: nat
    var secureMessaging: nat
    var classType: nat
    var genType: GenType

    constructor (raw: seq<byte>)
      ensures data == raw
    {
      data := raw;
      lc, le, body := 0, 0, [];
      channel, secureMessaging, classType, genType := 0, 0, 0, Iso;
    }

    function Value(): Apdu
      reads this
      requires 4 <= |data|
    {
      Apdu(data[0], data[1], data[2], data[3], lc, le, body, channel, secureMessaging, classType, genType)
    }

    /** vcard_apdu_set_class */
    method SetClass()
      requires 4 <= |data|
      modifies this
      ensures ClassMeans(data[0], channel, secureMessaging, genType)
      ensures channel == Channel(data[0]) && secureMessaging == SecureMessaging(data[0])
      ensures classType == data[0] / 0x10 * 0x10 && genType == GenTypeOf(data[0])
      ensures lc == old(lc) && le == old(le) && body == old(body)
    {
      hide ClassMeans;
      ClassByteMeans(data[0]);
      var cla := data[0];
      channel := 0;
      secureMessaging := 0;
      classType := cla - cla % 0x10;
      genType := Iso;
      if classType == 0x00 || classType == 0x80 || classType == 0x90 || classType == 0xa0 {
        channel := cla % 4;
        secureMessaging := cla % 0x10 - cla % 2;
      } else if classType == 0xb0 || classType == 0xc0 {
      } else if 0x10 <= classType <= 0x70 {
        genType := Rfu;
      } else {
        genType := if cla == 0xff then Pts else Proprietary;
      }
    }

    /** vcard_apdu_set_length */
    method SetLength() returns (status: Status)
      requires 4 <= |data|
      modifies this`lc, this`le, this`body
      ensures status == if Classify(data).Some? then SUCCESS else WRONG_LENGTH
      ensures Classify(data).Some? ==>
                lc == |Classify(data).value.Body()| && le == Classify(data).value.Le()
                && body == Classify(data).value.Body()
    {
      var L := |data| - 4;
      lc, le, body := 0, 0, [];
      if L == 0 {
        return SUCCESS;
      }
      if L == 1 {
        le := if data[4] != 0 then data[4] else 256;
        return SUCCESS;
      }
      if data[4] == 0 {
        if L < 3 {
          return WRONG_LENGTH;
        }
        var n := FromBe16(data[5], data[6]);
        if L == 3 {
          le := if n != 0 then n else 65536;
          return SUCCESS;
        }
        if n == 0 {
          return WRONG_LENGTH;
        }
        lc := n;
        if L == n + 3 {
          body := data[7..7 + n];
          return SUCCESS;
        }
        if L == n + 5 {
          body := data[7..7 + n];
          n := FromBe16(data[|data| - 2], data[|data| - 1]);
          le := if n != 0 then n else 65536;
          return SUCCESS;
        }
        return WRONG_LENGTH;
      }
      lc := data[4];
      if L == lc + 1 {
        body := data[5..5 + lc];
        return SUCCESS;
      }
      if L == lc + 2 {
        body := data[5..5 + lc];
        var last := data[|data| - 1];
        le := if last != 0 then last else 256;
        return SUCCESS;
      }
      return WRONG_LENGTH;
    }
  }

  /** vcard_apdu_new */
  method NewApdu(raw: seq<byte>) returns (result: Decoded)
    ensures result == Decode(raw)
  {
    if |raw| < 4 {
      return Err(WRONG_LENGTH);
    }
    var apdu := new VCardApdu(raw);
    apdu.SetClass();
    var status := apdu.SetLength();
    if status != SUCCESS {
      return Err(status);
    }
    return Ok(apdu.Value());
  }
}
