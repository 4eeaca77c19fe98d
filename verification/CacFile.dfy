/** Container files of the CAC applets (src/cac.c): the TL or V half of a SimpleTLV list behind a
  * two-byte length. */
module CacFile {
  import opened Bytes
  import opened SimpleTlv
  import opened SimpleTlvCodec

  /** cac_create_file succeeds for lists that can be split, encoded, and are not empty. */
  predicate Creatable(tlv: seq<Member>, mode: Mode) {
    mode != Both && Splittable(tlv, mode) && Encodable(tlv, mode) && Encode(tlv, mode) != []
  }

  function FileOf(tlv: seq<Member>, mode: Mode): (file: seq<byte>) {
    Le16(|Encode(tlv, mode)|) + Encode(tlv, mode)
  }

  /** cac_create_file: the file and its size, or nothing and zero. */
  method CreateFile(tlv: seq<Member>, mode: Mode) returns (out: array?<byte>, size: int)
    ensures Creatable(tlv, mode) <==> out != null
    ensures out != null ==> fresh(out) && out[..] == FileOf(tlv, mode) && size == out.Length
    ensures out == null ==> size == 0
  {
    var len := GetLength(tlv, mode);
    if len < 0 {
      return null, 0;
    }
    var buffer := new byte[2 + len];
    if mode == Both {
      return null, 0;
    }
    var length, buf, start, newptr := EncodeInternal(tlv, buffer, 2, len, mode);
    if length <= 0 {
      if len == 0 {
        EmptyIsEncodable(tlv, mode);
      }
      return null, 0;
    }
    ghost var body := buffer[..];
    buffer[0], buffer[1] := length % 0x100, (length / 0x100) % 0x100;
    assert buffer[2..] == body[2..2 + length] == Encode(tlv, mode);
    assert buffer[..] == buffer[..2] + buffer[2..];
    return buffer, 2 + len;
  }

  /** The two-byte header tells the truth exactly when the content fits 16 bits. */
  lemma HeaderIsTrue(tlv: seq<Member>, mode: Mode)
    ensures FromLe16(FileOf(tlv, mode)[0], FileOf(tlv, mode)[1]) == |FileOf(tlv, mode)| - 2
       <==> |Encode(tlv, mode)| <= 0xffff
  {
    var n := |Encode(tlv, mode)|;
    var q := n / 0x100;
    assert q % 0x100 == q <==> q < 0x100;
    assert n == q * 0x100 + n % 0x100;
  }

  /** What a host does with two files it has read: check the headers, cut V by TL. */
  function ReadFiles(tl: seq<byte>, v: seq<byte>): (r: Option<seq<Member>>) {
    if |tl| < 2 || |v| < 2 then None
    else if FromLe16(tl[0], tl[1]) != |tl| - 2 || FromLe16(v[0], v[1]) != |v| - 2 then None
    else Cut(tl[2..], v[2..])
  }

  /** Both files together give the list back, without its skipped members. */
  lemma FilesRoundTrip(tlv: seq<Member>)
    requires Flat(tlv) && Encodable(tlv, TL)
    requires |Encode(tlv, TL)| <= 0xffff && |Encode(tlv, Value)| <= 0xffff
    ensures ReadFiles(FileOf(tlv, TL), FileOf(tlv, Value)) == Some(Kept(tlv))
  {
    HeaderIsTrue(tlv, TL);
    HeaderIsTrue(tlv, Value);
    CutInvertsSplit(tlv);
    assert FileOf(tlv, TL)[2..] == Encode(tlv, TL);
    assert FileOf(tlv, Value)[2..] == Encode(tlv, Value);
  }

  /** A parsed object can always be split, but its TL file exists only if every tag is in range while its
    * V file needs nothing but content: a zero tag loses the TL file and keeps the V file. */
  lemma PassthroughFiles(data: seq<byte>)
    ensures Flat(Parse(data))
    ensures Creatable(Parse(data), TL) <==>
            Parse(data) != [] && forall i :: 0 <= i < |Parse(data)| ==>
              var m := Parse(data)[i];
              m.tag != 0x00 && m.tag != 0xff && |Content(m)| < 0xffff
    ensures Creatable(Parse(data), Value) <==>
            exists i :: 0 <= i < |Parse(data)| && Content(Parse(data)[i]) != []
  {
    var tlv := Parse(data);
    ParseIsFlat(data);
    LeavesTakeSpace(tlv);
  }

  lemma {:induction false} LeavesTakeSpace(tlv: seq<Member>)
    requires forall i :: 0 <= i < |tlv| ==> tlv[i].body.Leaf?
    ensures Encode(tlv, TL) != [] <==> tlv != []
    ensures Encode(tlv, Value) != [] <==> exists i :: 0 <= i < |tlv| && Content(tlv[i]) != []
    ensures Encodable(tlv, TL) <==> forall i :: 0 <= i < |tlv| ==> HeaderOk(tlv[i].tag, |Content(tlv[i])|)
  {
    if tlv != [] {
      LeavesTakeSpace(tlv[1..]);
      assert |EncodeMember(tlv[0], TL)| >= 2;
      assert EncodeMember(tlv[0], Value) == Content(tlv[0]);
      assert forall i :: 0 < i < |tlv| ==> tlv[i] == tlv[1..][i - 1];
      if i :| 0 <= i < |tlv| && Content(tlv[i]) != [] {
        if i > 0 {
          assert Content(tlv[1..][i - 1]) != [];
        }
      }
    }
  }

  lemma ZeroTagLosesTlFile()
    ensures var data := [0x00, 0x01, 0x41];
            !Creatable(Parse(data), TL) && Creatable(Parse(data), Value)
  {
    var data := [0x00, 0x01, 0x41];
    assert data[2..3] == [0x41];
    assert ReadRecord(data) == Some((Member(0x00, Leaf([0x41])), 3));
    assert Parse(data[3..]) == [];
    assert Parse(data)[0] == Member(0x00, Leaf([0x41]));
    PassthroughFiles(data);
  }
}
