/** The buffer-level code of src/simpletlv.c: a length pass, a recursive writer that works in place,
  * a header reader and a tolerant parser. A C pointer is an array and an offset into it. */
module SimpleTlvCodec {
  import opened Bytes
  import opened SimpleTlv

  /** simpletlv_get_length: -1 when compounds would have to be split. */
  method GetLength(tlv: seq<Member>, mode: Mode) returns (len: int)
    ensures len == if Splittable(tlv, mode) then |Encode(tlv, mode)| else -1
    decreases tlv
  {
    len := 0;
    for i := 0 to |tlv|
      invariant len == |Encode(tlv[..i], mode)|
      invariant Splittable(tlv[..i], mode)
    {
      EncodeSnoc(tlv, i, mode);
      if tlv[i].body.Skipped? {
        continue;
      }
      if tlv[i].body.Compound? && mode != Both {
        return -1;
      }
      var childLength := ContentLength(tlv[i]);
      if mode.HasTl() {
        len := len + 1;
        if childLength < 255 {
          len := len + 1;
        } else {
          len := len + 3;
        }
      }
      if mode.HasValue() {
        len := len + childLength;
      }
    }
    assert tlv[..|tlv|] == tlv;
  }

  /** The length of one record's content, computed by the length pass. */
  method ContentLength(m: Member) returns (n: int)
    requires !m.body.Skipped?
    ensures n == |Content(m)|
    decreases m
  {
    if m.body.Compound? {
      n := GetLength(m.body.children, Both);
    } else {
      n := |m.body.value|;
    }
  }

  /** simpletlv_put_tag: `outlen` is what the caller believes is left, not what is left. */
  method PutTag(tag: byte, datalen: nat, out: array<byte>, at: nat, outlen: nat) returns (rv: int, ptr: nat)
    requires outlen >= TagLengthSize(datalen) ==> at + TagLengthSize(datalen) <= out.Length
    modifies out
    ensures rv == if HeaderOk(tag, datalen) && TagLengthSize(datalen) <= outlen then 0 else -1
    ensures rv == 0 ==> ptr == at + TagLengthSize(datalen)
                        && Wrote(old(out[..]), out[..], at, TagLength(tag, datalen))
    ensures SameOutside(old(out[..]), out[..], at, TagLengthSize(datalen))
  {
    var p := at;
    ptr := at;
    if outlen < 2 || (outlen < 4 && datalen >= 0xff) {
      return -1, ptr;
    }
    if tag == 0x00 || tag == 0xff {
      return -1, ptr;
    }
    out[p] := tag;
    p := p + 1;
    if datalen < 0xff {
      out[p] := datalen;
      p := p + 1;
    } else if datalen < 0xffff {
      out[p] := 0xff;
      out[p + 1] := datalen % 0x100;
      out[p + 2] := (datalen / 0x100) % 0x100;
      p := p + 3;
    } else {
      return -1, ptr;
    }
    return 0, p;
  }

  /** memcpy into a buffer. */
  method Copy(src: seq<byte>, out: array<byte>, at: nat)
    requires at + |src| <= out.Length
    modifies out
    ensures Wrote(old(out[..]), out[..], at, src)
  {
    forall k | 0 <= k < |src| {
      out[at + k] := src[k];
    }
  }

  /** What simpletlv_encode_internal returns. */
  function EncodeResult(tlv: seq<Member>, outlen: nat, mode: Mode): int {
    if !Splittable(tlv, mode) then -1
    else if Encode(tlv, mode) == [] then 0
    else if 0 < outlen < |Encode(tlv, mode)| then -1
    else if !Encodable(tlv, mode) then -1
    else |Encode(tlv, mode)|
  }

  /** simpletlv_encode_internal. With `outlen == 0` a buffer of exactly the right size is allocated.
    * Otherwise the bytes go to `out` from `at` on. The recursive call hands down the space that was left
    * before the tag in front of the child was written, so `outlen` may exceed the space that is really
    * there; the only thing the caller has to guarantee is room for what will be written. */
  method EncodeInternal(tlv: seq<Member>, out: array<byte>, at: nat, outlen: nat, mode: Mode)
    returns (rv: int, buf: array<byte>, start: nat, newptr: nat)
    requires at <= out.Length
    requires 0 < |Encode(tlv, mode)| <= outlen ==> at + |Encode(tlv, mode)| <= out.Length
    modifies out
    ensures rv == EncodeResult(tlv, outlen, mode)
    ensures rv > 0 && outlen == 0 ==>
              fresh(buf) && start == 0 && newptr == rv && buf[..] == Encode(tlv, mode)
    ensures rv > 0 && outlen > 0 ==>
              buf == out && start == at && newptr == at + rv && Wrote(old(out[..]), out[..], at, Encode(tlv, mode))
    ensures rv == 0 ==> buf == out && start == at && newptr == at
    ensures rv == 0 || outlen == 0 ==> out[..] == old(out[..])
    ensures rv < 0 ==> SameOutside(old(out[..]), out[..], at, |Encode(tlv, mode)|)
    decreases tlv, 1
  {
    buf, start, newptr := out, at, at;
    var expectLen := GetLength(tlv, mode);
    if expectLen <= 0 {
      return expectLen, buf, start, newptr;
    }
    if outlen == 0 {
      buf, start := new byte[expectLen], 0;
      ghost var before := buf[..];
      rv, newptr := WriteMembers(tlv, buf, 0, expectLen, mode);
      if rv >= 0 {
        WroteAll(before, buf[..], Encode(tlv, mode));
      }
    } else if outlen >= expectLen {
      rv, newptr := WriteMembers(tlv, buf, at, outlen, mode);
    } else {
      rv := -1;
    }
  }

  /** The loop of simpletlv_encode_internal over a buffer that has been chosen. */
  method WriteMembers(tlv: seq<Member>, tmp: array<byte>, t0: nat, tmpLen: nat, mode: Mode)
    returns (rv: int, p: nat)
    requires Splittable(tlv, mode)
    requires t0 + |Encode(tlv, mode)| <= tmp.Length && 0 < |Encode(tlv, mode)| <= tmpLen
    modifies tmp
    ensures rv == if Encodable(tlv, mode) then |Encode(tlv, mode)| else -1
    ensures rv >= 0 ==> p == t0 + rv && Wrote(old(tmp[..]), tmp[..], t0, Encode(tlv, mode))
    ensures SameOutside(old(tmp[..]), tmp[..], t0, |Encode(tlv, mode)|)
    decreases tlv, 0
  {
    ghost var before := tmp[..];
    p := t0;
    var pLen := tmpLen;
    for i := 0 to |tlv|
      invariant Progress(tlv, i, mode, before, tmp[..], t0, p)
      invariant pLen == tmpLen - (p - t0)
    {
      ghost var prev := tmp[..];
      ProgressRoom(tlv, i, mode, before, prev, t0, p);
      if tlv[i].body.Skipped? {
        continue;
      }
      var ok, q := WriteMember(tlv[i], tmp, p, pLen, mode);
      if ok < 0 {
        return -1, p;
      }
      ProgressStep(tlv, i, mode, before, prev, tmp[..], t0, p);
      p := q;
      pLen := tmpLen - (p - t0);
    }
    assert tlv[..|tlv|] == tlv;
    rv := tmpLen - pLen;
  }

  /** The loop invariant of the writer: the first `i` members are there and all of them could be written. */
  ghost predicate Progress(tlv: seq<Member>, i: nat, mode: Mode, before: seq<byte>, now: seq<byte>, t0: nat, p: nat) {
    && i <= |tlv|
    && p == t0 + |Encode(tlv[..i], mode)|
    && Wrote(before, now, t0, Encode(tlv[..i], mode))
    && (mode == Value || forall j :: 0 <= j < i ==> MemberEncodable(tlv[j]))
  }

  lemma ProgressRoom(tlv: seq<Member>, i: nat, mode: Mode, before: seq<byte>, now: seq<byte>, t0: nat, p: nat)
    requires i < |tlv| && Progress(tlv, i, mode, before, now, t0, p)
    ensures p + |EncodeMember(tlv[i], mode)| <= t0 + |Encode(tlv, mode)|
    ensures tlv[i].body.Skipped? ==> Progress(tlv, i + 1, mode, before, now, t0, p)
  {
    EncodeBound(tlv, i, mode);
    EncodeSnoc(tlv, i, mode);
  }

  lemma ProgressStep(tlv: seq<Member>, i: nat, mode: Mode, before: seq<byte>, prev: seq<byte>, now: seq<byte>,
                     t0: nat, p: nat)
    requires i < |tlv| && Progress(tlv, i, mode, before, prev, t0, p)
    requires mode == Value || MemberEncodable(tlv[i])
    requires Wrote(prev, now, p, EncodeMember(tlv[i], mode))
    ensures Progress(tlv, i + 1, mode, before, now, t0, p + |EncodeMember(tlv[i], mode)|)
  {
    EncodeSnoc(tlv, i, mode);
    WroteThen(before, prev, now, t0, Encode(tlv[..i], mode), EncodeMember(tlv[i], mode));
  }

  /** One round of that loop: the tag, then the value or the children. `pLen` is not reduced by the tag
    * before it is handed to the recursive call. */
  method WriteMember(m: Member, tmp: array<byte>, at: nat, pLen: nat, mode: Mode) returns (ok: int, p: nat)
    requires !m.body.Skipped? && (m.body.Compound? ==> mode == Both)
    requires at + |EncodeMember(m, mode)| <= tmp.Length && |EncodeMember(m, mode)| <= pLen
    modifies tmp
    ensures ok == if mode == Value || MemberEncodable(m) then 0 else -1
    ensures ok == 0 ==> p == at + |EncodeMember(m, mode)|
                        && Wrote(old(tmp[..]), tmp[..], at, EncodeMember(m, mode))
    ensures SameOutside(old(tmp[..]), tmp[..], at, |EncodeMember(m, mode)|)
    decreases m, 1
  {
    ghost var before := tmp[..];
    ghost var content := if mode.HasValue() then Content(m) else [];
    ghost var header := [];
    var childLength := ContentLength(m);
    p := at;
    ok := 0;
    if mode.HasTl() {
      ok, p := PutTag(m.tag, childLength, tmp, p, pLen);
      if ok < 0 {
        return;
      }
      header := TagLength(m.tag, childLength);
    }
    assert EncodeMember(m, mode) == header + content;
    ghost var mid := tmp[..];
    if mode.HasValue() {
      ok, p := WriteContent(m, tmp, p, pLen, mode);
      if ok < 0 {
        return;
      }
    }
    WroteThen(before, mid, tmp[..], at, header, content);
  }

  /** The value half of that round: a leaf is copied, a compound recursed into. */
  method WriteContent(m: Member, tmp: array<byte>, at: nat, pLen: nat, mode: Mode) returns (ok: int, p: nat)
    requires mode.HasValue() && !m.body.Skipped? && (m.body.Compound? ==> mode == Both)
    requires at + |Content(m)| <= tmp.Length && |Content(m)| <= pLen && (m.body.Compound? ==> 0 < pLen)
    modifies tmp
    ensures ok == if m.body.Leaf? || Encodable(m.body.children, Both) then 0 else -1
    ensures ok == 0 ==> p == at + |Content(m)| && Wrote(old(tmp[..]), tmp[..], at, Content(m))
    ensures ok < 0 ==> SameOutside(old(tmp[..]), tmp[..], at, |Content(m)|)
    decreases m, 0
  {
    ok, p := 0, at;
    if m.body.Leaf? {
      Copy(m.body.value, tmp, at);
      p := at + |m.body.value|;
    } else {
      if Encode(m.body.children, Both) == [] {
        EmptyIsEncodable(m.body.children, Both);
      }
      var child, start, newp;
      ok, child, start, newp := EncodeInternal(m.body.children, tmp, at, pLen, mode);
      if ok < 0 {
        return -1, p;
      }
      ok, p := 0, newp;
    }
  }

  /** simpletlv_encode, _tl and _val into `outlen` bytes of the caller's buffer, from `at` on. */
  method EncodeInto(tlv: seq<Member>, out: array<byte>, at: nat, outlen: nat, mode: Mode)
    returns (rv: int, newptr: nat)
    requires 0 < outlen && at + outlen <= out.Length
    modifies out
    ensures rv == EncodeResult(tlv, outlen, mode)
    ensures rv >= 0 ==> newptr == at + rv && Wrote(old(out[..]), out[..], at, Encode(tlv, mode))
    ensures SameOutside(old(out[..]), out[..], at, if rv == 0 then 0 else |Encode(tlv, mode)|)
  {
    var buf, start;
    rv, buf, start, newptr := EncodeInternal(tlv, out, at, outlen, mode);
  }

  /** The same with a capacity of zero: the encoder allocates the buffer. */
  method EncodeNew(tlv: seq<Member>, mode: Mode) returns (rv: int, buf: array<byte>)
    ensures rv == EncodeResult(tlv, 0, mode)
    ensures rv > 0 ==> fresh(buf) && buf[..] == Encode(tlv, mode)
  {
    var none := new byte[0];
    var start, newptr;
    rv, buf, start, newptr := EncodeInternal(tlv, none, 0, 0, mode);
  }

  /** simpletlv_read_tag on the `buflen` bytes of `buf` from `p` on. */
  method ReadTag(buf: seq<byte>, p: nat, buflen: nat) returns (rv: int, tag: byte, taglen: nat, q: nat)
    requires p + buflen == |buf|
    ensures rv == if ReadHeader(buf[p..]).Some? then 0 else -1
    ensures p <= q <= |buf|
    ensures rv == 0 ==> ReadHeader(buf[p..]) == Some(Header(tag, q - p, taglen))
    ensures buflen < 2 ==> q == |buf|
  {
    tag, taglen, q := 0, 0, p;
    if buflen < 2 {
      return -1, tag, taglen, p + buflen;
    }
    tag := buf[p];
    var len: nat := buf[p + 1];
    var r := p + 2;
    if len == 0xff {
      if buflen < 4 {
        return -1, tag, 0, p;
      }
      len := FromLe16(buf[r], buf[r + 1]);
      r := r + 2;
    }
    return 0, tag, len, r;
  }

  /** simpletlv_parse: the members up to the first header that is cut off or promises too much. */
  method ParseBuffer(data: seq<byte>) returns (tlv: seq<Member>)
    ensures tlv == Parse(data)
  {
    hide Parse;
    tlv := [];
    var p := 0;
    assert data[0..] == data;
    while p < |data|
      invariant 0 <= p <= |data|
      invariant Parse(data) == tlv + Parse(data[p..])
    {
      var rv, tag, vlen, q := ReadTag(data, p, |data| - p);
      if rv < 0 {
        ParseStops(data[p..]);
        return;
      }
      if vlen > |data| - q {
        ParseStops(data[p..]);
        return;
      }
      var m := Member(tag, Leaf(data[q..q + vlen]));
      ParseAt(data, p, q, m);
      Assoc(tlv, [m], Parse(data[q + vlen..]));
      tlv := tlv + [m];
      p := q + vlen;
    }
    ParseStops(data[p..]);
  }

  lemma ParseStops(s: seq<byte>)
    requires ReadRecord(s).None?
    ensures Parse(s) == []
  {
  }

  lemma ParseAt(data: seq<byte>, p: nat, q: nat, m: Member)
    requires m.body.Leaf? && p <= q <= q + |m.body.value| <= |data| && m.body.value == data[q..q + |m.body.value|]
    requires ReadHeader(data[p..]) == Some(Header(m.tag, q - p, |m.body.value|))
    ensures Parse(data[p..]) == [m] + Parse(data[q + |m.body.value|..])
  {
    var n := |m.body.value|;
    assert data[p..][q - p..q - p + n] == data[q..q + n];
    assert data[p..][q - p + n..] == data[q + n..];
    ParseStep(data[p..], m, q - p + n, data[q + n..]);
  }

  /** simpletlv_merge: one list after the other. */
  method Merge(a: seq<Member>, b: seq<Member>) returns (r: seq<Member>)
    ensures Encode(r, Both) == Encode(a, Both) + Encode(b, Both)
    ensures |r| == |a| + |b|
    ensures Encodable(r, Both) <==> Encodable(a, Both) && Encodable(b, Both)
  {
    r := a + b;
    EncodeConcat(a, b, Both);
    assert a == r[..|a|] && b == r[|a|..];
    MergeEncodable(a, b);
  }

  lemma MergeEncodable(a: seq<Member>, b: seq<Member>)
    ensures Encodable(a + b, Both) <==> Encodable(a, Both) && Encodable(b, Both)
  {
    forall i | 0 <= i < |b| ensures (a + b)[|a| + i] == b[i] {
    }
    forall i | 0 <= i < |a| ensures (a + b)[i] == a[i] {
    }
  }
}
