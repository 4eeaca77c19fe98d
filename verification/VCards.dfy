/** The card and reader as objects: src/vcard.c, src/card_7816.c and the handlers of src/cac.c update one
  * VCard in place. Every method is tied to the step function of module `Card`. */
module VCards {
  import opened Bytes
  import opened SimpleTlv
  import opened Apdus
  import opened Card
  import opened CardSteps
  import SimpleTlvCodec
  import CacFile
  import AcaCodec
  import AcaExtended
  import AcaTables
  import A = Acr
  import AcrCodec

  class VCard {
    var applets: seq<Applet>
    const current: array<Option<nat>>
    var pending: Option<Pending>
    var windows: bool

    /** vcard_new: no applets, nothing selected. */
    constructor ()
      ensures fresh(current) && Ready()
      ensures View() == CardState([], [None, None, None, None], None, false)
    {
      applets := [];
      current := new Option<nat>[MAX_CHANNEL](_ => None);
      pending := None;
      windows := false;
      new;
      assert current[..] == [None, None, None, None];
    }

    function View(): CardState
      reads this, current
    {
      CardState(applets, current[..], pending, windows)
    }

    predicate Ready()
      reads this, current
    {
      CardOk(View())
    }

    /** vcard_add_applet on a VM card */
    method AddApplet(a: Applet)
      requires Ready() && AppletOk(a)
      modifies this`applets
      ensures Ready() && View() == old(View()).(applets := old(applets) + [a])
    {
      applets := applets + [a];
    }

    /** vcard_init_buffer_response: replaces whatever was pending. */
    method InitBufferResponse(data: seq<byte>) returns (r: Response)
      modifies this`pending
      ensures Outcome(View(), Done, Some(r), None) == InitBuffer(old(View()), data)
    {
      if pending.Some? {
        pending := None;
      }
      pending := Some(Pending(data, 0, |data|));
      r := Response([], 0x61, if |data| > 255 then 0 else |data|);
    }

    /** vcard_response_new_bytes */
    method ResponseNewBytes(data: seq<byte>, le: nat, sw1: byte, sw2: byte) returns (r: Response)
      modifies this`pending
      ensures Outcome(View(), Done, Some(r), None) == SendBytes(old(View()), data, le, sw1, sw2)
    {
      if |data| > le {
        r := InitBufferResponse(data);
        return;
      }
      r := Response(data, sw1, sw2);
    }

    /** get_properties. The inner loop stops at the first property with the tag. */
    method GetPropertiesResponse(props: seq<Member>, tags: seq<byte>, le: nat) returns (r: Response)
      requires Encodable(props, Both)
      modifies this`pending
      ensures Outcome(View(), Done, Some(r), None) == GetProperties(old(View()), props, tags, le)
    {
      var cp := props;
      if |tags| > 0 {
        cp := [];
        PrependNothing(SelectTags(props, tags));
        assert tags[0..] == tags;
        for j := 0 to |tags|
          modifies {}
          invariant SelectTags(props, tags) == Prepend(cp, SelectTags(props, tags[j..]))
        {
          var matched := false;
          PrependStep(cp, props, tags, j);
          ghost var selected := cp;
          for i := 0 to |props|
            modifies {}
            invariant cp == selected && !matched && FindTag(props, tags[j]) == FindTag(props[i..], tags[j])
          {
            if props[i].tag == tags[j] {
              cp := cp + [props[i]];
              matched := true;
              break;
            }
          }
          assert props[|props|..] == [];
          if !matched {
            return MakeResponse(0x6a88);
          }
        }
        assert cp + [] == cp;
        SelectedEncodable(props, tags);
      }
      var len, buffer := SimpleTlvCodec.EncodeNew(cp, Both);
      if len <= 0 {
        return MakeResponse(0x6f00);
      }
      if le > len {
        return Response([], 0x6c, len % 0x100);
      }
      r := ResponseNewBytes(buffer[..], le, 0x90, 0x00);
    }

    /** cac_common_process_apdu */
    method CommonProcess(i: nat, a: Apdu) returns (st: VStatus, r: Option<Response>)
      requires Ready() && i < |applets|
      modifies this`pending
      ensures Outcome(View(), st, r, None) == Common(old(View()), i, a)
    {
      CommonSound(View(), i, a);
      var applet := applets[i];
      PrefixEncodable(applet.properties, applet.shortLen);
      st, r := Done, None;
      if a.ins == 0x56 {
        if a.p2 != 0x00 {
          return Done, Some(MakeResponse(0x6a86));
        }
        var answer;
        if a.p1 == 0x01 {
          if a.body != [] {
            return Done, Some(MakeResponse(0x6984));
          }
          answer := GetPropertiesResponse(applet.properties[..applet.shortLen], [], a.le);
        } else if a.p1 == 0x02 {
          if a.body == [] {
            return Done, Some(MakeResponse(0x6984));
          }
          answer := GetPropertiesResponse(applet.properties[..applet.shortLen], a.body, a.le);
        } else if a.p1 == 0x40 {
          answer := GetPropertiesResponse(applet.properties, [], a.le);
        } else {
          answer := MakeResponse(0x6a86);
        }
        r := Some(answer);
      } else if a.ins == 0xa4 {
        if a.p1 != 0x02 {
          return Next, None;
        }
        if |a.body| != 2 {
          return Done, Some(MakeResponse(0x6984));
        }
        var found := false;
        for k := 0 to |applet.coids|
          invariant found <==> (a.body[0], a.body[1]) in applet.coids[..k]
        {
          if (a.body[0], a.body[1]) == applet.coids[k] {
            found := true;
          }
        }
        assert applet.coids[..|applet.coids|] == applet.coids;
        r := Some(MakeResponse(if found then 0x9000 else 0x6a82));
      } else if a.ins == 0xc0 || a.ins == 0x20 {
        st := Next;
      } else {
        r := Some(MakeResponse(0x6d00));
      }
    }

    /** cac_common_process_apdu_read */
    method CommonReadProcess(i: nat, a: Apdu) returns (st: VStatus, r: Option<Response>)
      requires Ready() && i < |applets|
      modifies this`pending
      ensures Outcome(View(), st, r, None) == CommonRead(old(View()), i, a)
    {
      if a.ins == 0x52 {
        if |a.body| != 2 {
          return Done, Some(MakeResponse(0x6984));
        }
        var size: int := a.body[1];
        var offset := FromBe16(a.p1, a.p2);
        var file;
        if a.body[0] == 0x02 {
          file := FileBytes(applets[i].valFile);
        } else if a.body[0] == 0x01 {
          file := FileBytes(applets[i].tagFile);
        } else {
          return Done, Some(MakeResponse(0x6984));
        }
        size := Min(size, |file| - offset);
        if size < 0 {
          return Done, Some(MakeResponse(0x6a86));
        }
        var answer := ResponseNewBytes(file[offset..offset + size], a.le, 0x90, 0x00);
        return Done, Some(answer);
      }
      if a.ins == 0x58 {
        return Done, Some(MakeResponse(0x6900));
      }
      st, r := CommonProcess(i, a);
    }

    /** cac_applet_pki_process_apdu. `signed` is what vcard_emul_rsa_op was called with. */
    method PkiProcessApdu(i: nat, a: Apdu, env: Env)
      returns (st: VStatus, r: Option<Response>, signed: Option<(nat, seq<byte>)>)
      requires Ready() && i < |applets| && applets[i].kind.Pki?
      modifies this`pending, this`applets
      ensures Outcome(View(), st, r, signed) == PkiProcess(old(View()), i, a, env)
    {
      signed := None;
      if a.ins == 0x58 {
        return Done, Some(MakeResponse(0x6985)), None;
      }
      if a.ins != 0x42 {
        ReadSound(View(), i, a);
        st, r := CommonReadProcess(i, a);
        return;
      }
      if a.p2 != 0 {
        return Done, Some(MakeResponse(0x6a86)), None;
      }
      st := Done;
      var key := applets[i].kind.key;
      var signBuffer := applets[i].kind.sign + a.body;
      var retain := false;
      if a.p1 == 0x80 {
        applets := applets[i := applets[i].(kind := Pki(signBuffer, key))];
        r := Some(MakeResponse(0x9000));
        retain := true;
      } else if a.p1 == 0x00 {
        signed := Some((i, signBuffer));
        if env.rsaStatus != SUCCESS {
          r := Some(MakeResponse(env.rsaStatus));
        } else {
          var answer := ResponseNewBytes(RsaResult(env, signBuffer), a.le, 0x90, 0x00);
          r := Some(answer);
        }
      } else {
        r := Some(MakeResponse(0x6a86));
      }
      if !retain {
        applets := applets[i := applets[i].(kind := Pki([], key))];
      }
    }

    /** The tail the table responses of src/cac-aca.c share: merge with the applet information, encode, send. */
    method TableResponse(table: Option<seq<Member>>, le: nat, notFound: Status) returns (r: Response)
      modifies this`pending
      ensures Outcome(View(), Done, Some(r), None) == SendTable(old(View()), table, le, notFound)
    {
      if table.None? {
        return MakeResponse(notFound);
      }
      var list := SimpleTlvCodec.Merge(AcaTables.APPLET_INFORMATION, table.value);
      var len, buffer := SimpleTlvCodec.EncodeNew(AcaTables.APPLET_INFORMATION + table.value, Both);
      assert |Encode(AcaTables.APPLET_INFORMATION, Both)| == 7;
      EncodeConcat(AcaTables.APPLET_INFORMATION, table.value, Both);
      if len <= 0 {
        return MakeResponse(0x6f00);
      }
      r := ResponseNewBytes(buffer[..], le, 0x90, 0x00);
    }

    /** cac_applet_aca_process_apdu. No path leaves the response unset. */
    method AcaProcessApdu(i: nat, a: Apdu) returns (st: VStatus, r: Option<Response>)
      requires Ready() && i < |applets| && applets[i].kind.Aca?
      modifies this`pending
      ensures Outcome(View(), st, r, None) == AcaProcess(old(View()), i, a)
    {
      assert AppletOk(applets[i]);
      if a.ins != 0x4c {
        st, r := CommonProcess(i, a);
        return;
      }
      var answer := GetAcrResponse(applets[i].kind, a);
      return Done, Some(answer);
    }

    method GetAcrResponse(k: Kind, a: Apdu) returns (r: Response)
      requires k.Aca? && k.pki <= A.PKI_SLOTS && k.tables.Ok()
      modifies this`pending
      ensures Outcome(View(), Done, Some(r), None) == GetAcr(old(View()), k, a)
    {
      if a.p2 != 0x00 {
        return MakeResponse(0x6a86);
      }
      match a.p1 {
        case 0x00 =>
          if a.body != [] { return MakeResponse(0x6984); }
          var table := AcaCodec.NewAcr(k.tables, None);
          r := TableResponse(table, a.le, 0x6a88);
        case 0x01 =>
          if |a.body| != 1 { return MakeResponse(0x6984); }
          var table := AcaCodec.NewAcr(k.tables, Some(a.body[0]));
          r := TableResponse(table, a.le, 0x6a88);
        case 0x10 =>
          if a.body != [] { return MakeResponse(0x6984); }
          var table := AcaCodec.NewAppletAcr(k.pki, []);
          r := TableResponse(table, a.le, 0x6f00);
        case 0x11 =>
          if |a.body| != 7 { return MakeResponse(0x6984); }
          var table := AcaCodec.NewAppletAcr(k.pki, a.body);
          r := TableResponse(table, a.le, 0x6a88);
        case 0x12 =>
          if |a.body| != 2 { return MakeResponse(0x6984); }
          var table := AcaCodec.NewObjectAcr(k.pki, (a.body[0], a.body[1]));
          r := TableResponse(table, a.le, 0x6a80);
        case 0x20 =>
          if a.body != [] { return MakeResponse(0x6984); }
          var table := AcaCodec.NewAmp(k.tables);
          r := TableResponse(Some(table), a.le, 0x6f00);
        case 0x21 =>
          if a.body != [] { return MakeResponse(0x6984); }
          var table := AcaCodec.NewServices(k.tables, k.pki);
          r := TableResponse(Some(table), a.le, 0x6f00);
        case _ =>
          r := ExtendedAcrResponse(k, a);
      }
    }

    method ExtendedAcrResponse(k: Kind, a: Apdu) returns (r: Response)
      requires k.Aca? && k.pki <= A.PKI_SLOTS && k.tables.Ok() && a.p2 == 0x00
      requires a.p1 !in [0x00, 0x01, 0x10, 0x11, 0x12, 0x20, 0x21]
      modifies this`pending
      ensures Outcome(View(), Done, Some(r), None) == GetAcr(old(View()), k, a)
    {
      hide A.APPLETS_TABLE, A.SERVICE_TABLE, AcaExtended.ACR_TABLE, AcaExtended.AMP_EXTENDED, AcaTables.AcrList,
           AcaTables.AppletAcrList, AcaTables.ObjectAcrList, AcaTables.AmpList, AcaTables.ServiceList, SendTable,
           A.InUse, A.ExtendedTable, AcaExtended.ExtendedAcr, AcaExtended.ExtendedServices;
      A.AppletsTableBounded();
      AcaExtended.TablesBounded();
      if a.p1 !in [0x40, 0x41, 0x50, 0x51, 0x52, 0x60, 0x61] {
        return MakeResponse(0x6900);
      }
      if a.body != [] {
        return MakeResponse(0x6984);
      }
      var data;
      if a.p1 == 0x40 || a.p1 == 0x41 {
        var buffer, len := AcaExtended.NewExtendedAcr(AcaExtended.ACR_TABLE);
        data := buffer[..len];
      } else if a.p1 == 0x60 {
        data := AcaExtended.AMP_EXTENDED;
      } else if a.p1 == 0x61 {
        var buffer, len := AcaExtended.NewExtendedServices(A.SERVICE_TABLE, 12, k.pki);
        data := buffer[..len];
      } else {
        var buffer, len, ok := AcrCodec.NewExtendedTable(A.APPLETS_TABLE, 13, k.pki);
        data := buffer[..len];
      }
      r := ResponseNewBytes(data, a.le, 0x90, 0x00);
    }

    /** cac_passthrough_container_process_apdu */
    method PassthroughProcessApdu(i: nat, a: Apdu, env: Env) returns (st: VStatus, r: Option<Response>)
      requires Ready() && i < |applets| && applets[i].kind.Passthrough?
      modifies this`pending, this`applets
      ensures Outcome(View(), st, r, None) == PassthroughProcess(old(View()), i, a, env)
    {
      if a.ins == 0x52 && (applets[i].tagFile.None? || applets[i].valFile.None?) {
        ReplaceOk(View(), i, FetchedFiles(applets[i], env.stored));
        if env.stored.Some? {
          var tlv := SimpleTlvCodec.ParseBuffer(env.stored.value);
          var tag, tagLen := CacFile.CreateFile(tlv, TL);
          var val, valLen := CacFile.CreateFile(tlv, Value);
          var t := if tag == null then None else Some(tag[..]);
          var v := if val == null then None else Some(val[..]);
          applets := applets[i := applets[i].(tagFile := t, valFile := v)];
        } else {
          applets := applets[i := applets[i].(tagFile := Some([0, 0]), valFile := Some([0, 0]))];
        }
        assert applets[i] == FetchedFiles(old(applets)[i], env.stored);
      }
      st, r := CommonReadProcess(i, a);
    }

    /** The GP and MSFT applets */
    method DataObjectsProcessApdu(i: nat, a: Apdu) returns (st: VStatus, r: Option<Response>)
      requires Ready() && i < |applets| && applets[i].kind.DataObjects?
      modifies this`pending, this`windows
      ensures Outcome(View(), st, r, None) == DataObjectsProcess(old(View()), i, a)
    {
      if a.ins != 0xca {
        return Next, None;
      }
      var tag := FromBe16(a.p1, a.p2);
      if tag !in applets[i].kind.answers {
        return Done, Some(MakeResponse(0x6a88));
      }
      windows := windows || applets[i].kind.windows;
      var answer := ResponseNewBytes(applets[i].kind.answers[tag], a.le, 0x90, 0x00);
      return Done, Some(answer);
    }

    /** vcard_find_applet: the list is walked from the applet added last. */
    method Find(aid: seq<byte>) returns (r: Option<nat>)
      ensures r == FindApplet(applets, aid)
    {
      var k := |applets|;
      assert applets[..k] == applets;
      while k > 0
        invariant k <= |applets|
        invariant FindApplet(applets, aid) == FindApplet(applets[..k], aid)
      {
        k := k - 1;
        assert applets[..k + 1][..k] == applets[..k];
        if |applets[k].aid| != |aid| {
          continue;
        }
        if applets[k].aid == aid {
          return Some(k);
        }
      }
      return None;
    }

    /** vcard_select_applet */
    method Select(channel: nat, found: Option<nat>)
      requires Ready() && channel < MAX_CHANNEL && (found.Some? ==> found.value < |applets|)
      modifies this`applets, current
      ensures View() == SelectApplet(old(View()), channel, found)
    {
      current[channel] := found;
      if found.Some? {
        ResetOne(found.value);
      }
      assert current[..] == old(current[..])[channel := found];
    }

    /** cac_applet_pki_reset and cac_applet_passthrough_reset */
    method ResetOne(i: nat)
      requires i < |applets|
      modifies this`applets
      ensures applets == old(applets)[i := ResetApplet(old(applets)[i])]
    {
      var a := applets[i];
      if a.kind.Pki? {
        applets := applets[i := a.(kind := Pki([], a.kind.key))];
      } else if a.kind.Passthrough? {
        applets := applets[i := a.(tagFile := None, valFile := None)];
      }
    }

    /** The SELECT arm of vcard7816_vm_process_apdu */
    method VmSelectApdu(a: Apdu) returns (st: VStatus, r: Option<Response>)
      requires Ready() && a.channel < 2
      modifies this`pending, this`applets, current
      ensures Outcome(View(), st, r, None) == VmSelect(old(View()), a)
    {
      if a.p1 != 0x04 {
        return Done, Some(MakeResponse(0x6a81));
      }
      var found := Find(a.body);
      var gp := Find(GP_AID);
      Select(a.channel, found);
      if found.None? {
        return Done, Some(MakeResponse(0x6a82));
      }
      var answer;
      if found == gp {
        answer := ResponseNewBytes(GP_RESPONSE, a.le, 0x90, 0x00);
      } else {
        if 6 + |a.body| > FCI_TEMPLATE_SIZE {
          return Abort, None;
        }
        answer := ResponseNewBytes(Fci(a.body), a.le, 0x90, 0x00);
      }
      return Done, Some(answer);
    }

    /** The VERIFY arm */
    method VmVerifyApdu(a: Apdu, env: Env) returns (r: Response)
      ensures Outcome(View(), Done, Some(r), None) == VmVerify(View(), a, env)
    {
      if a.p1 != 0x00 || a.p2 != 0x00 {
        return MakeResponse(0x6a00);
      }
      if |a.body| == 0 {
        if env.loggedIn {
          return MakeResponse(0x9000);
        }
        var count := env.loginCount;
        if count == -1 && windows {
          count := 3;
        }
        if count < 0 {
          return MakeResponse(0x6a88);
        }
        if count > 0xf {
          count := 0xf;
        }
        return Response([], 0x63, 0xc0 + count);
      }
      return MakeResponse(env.loginStatus);
    }

    /** The GET RESPONSE arm */
    method VmGetResponseApdu(a: Apdu) returns (r: Response)
      requires Ready()
      modifies this`pending
      ensures Outcome(View(), Done, Some(r), None) == VmGetResponse(old(View()), a)
    {
      if pending.None? {
        return MakeResponse(0x6a88);
      }
      var buffer := pending.value;
      var n := Min(buffer.len, a.le);
      var next := Min(256, buffer.len - n);
      r := ResponseNewBytes(buffer.buffer[buffer.current..buffer.current + n], a.le,
                            if next != 0 then 0x61 else 0x90, next % 0x100);
      buffer := Pending(buffer.buffer, buffer.current + n, buffer.len - n);
      pending := if next == 0 then None else Some(buffer);
    }

    /** vcard7816_vm_process_apdu */
    method VmProcessApdu(a: Apdu, env: Env) returns (st: VStatus, r: Option<Response>)
      requires Ready() && a.channel < MAX_CHANNEL && (a.secureMessaging == 0 ==> a.channel < 2)
      modifies this`pending, this`applets, current
      ensures Outcome(View(), st, r, None) == VmProcess(old(View()), a, env)
    {
      if a.genType != Iso {
        return Done, Some(MakeResponse(0x6900));
      }
      if a.secureMessaging != 0 {
        return Done, Some(MakeResponse(0x6882));
      }
      if a.ins == 0xa4 {
        st, r := VmSelectApdu(a);
      } else if a.ins == 0x20 {
        var answer := VmVerifyApdu(a, env);
        st, r := Done, Some(answer);
      } else if a.ins == 0xc0 {
        var answer := VmGetResponseApdu(a);
        st, r := Done, Some(answer);
      } else {
        st, r := Done, Some(MakeResponse(0x6900));
      }
    }

    /** vcard_process_applet_apdu */
    method AppletProcessApdu(a: Apdu, env: Env)
      returns (st: VStatus, r: Option<Response>, signed: Option<(nat, seq<byte>)>)
      requires Ready() && a.channel < MAX_CHANNEL
      modifies this`pending, this`applets, this`windows
      ensures Outcome(View(), st, r, signed) == AppletProcess(old(View()), a, env)
    {
      signed := None;
      if current[a.channel].None? {
        return Next, None, None;
      }
      var i := current[a.channel].value;
      match applets[i].kind {
        case Pki(_, _) => st, r, signed := PkiProcessApdu(i, a, env);
        case Aca(_, _) => AcaSound(View(), i, a); st, r := AcaProcessApdu(i, a);
        case Plain => ReadSound(View(), i, a); st, r := CommonReadProcess(i, a);
        case Passthrough(_) => PassthroughSound(View(), i, a, env); st, r := PassthroughProcessApdu(i, a, env);
        case DataObjects(_, _) => DataObjectsSound(View(), i, a); st, r := DataObjectsProcessApdu(i, a);
      }
    }

    /** vcard_process_apdu */
    method ProcessApdu(a: Apdu, raw: seq<byte>, env: Env)
      returns (st: VStatus, r: Option<Response>, signed: Option<(nat, seq<byte>)>)
      requires Ready() && Decode(raw) == Ok(a)
      modifies this, current
      ensures Outcome(View(), st, r, signed) == Process(old(View()), a, raw, env)
    {
      DecodedChannel(raw);
      if a.classType == PTS_TYPE {
        return Done, Some(RawResponse(raw)), None;
      }
      if pending.Some? && a.ins != 0xc0 {
        pending := None;
      }
      AppletSound(View(), a, env);
      st, r, signed := AppletProcessApdu(a, env);
      if st != Next {
        return;
      }
      st, r := VmProcessApdu(a, env);
      signed := None;
    }

    /** The part of vreader_xfr_bytes that works on the card: the command is decoded and processed, and the
      * assertion behind it, that there is an answer, holds. */
    method Exchange(send: seq<byte>, env: Env)
      returns (st: VStatus, r: Option<Response>, signed: Option<(nat, seq<byte>)>)
      requires Ready()
      modifies this, current
      ensures Ready() && Outcome(View(), st, r, signed) == Xfr(old(View()), send, env)
      ensures st == Done && r.Some? && r.value.Bytes() == Answer(old(View()), send, env)
    {
      XfrSound(View(), send, env);
      var decoded := NewApdu(send);
      match decoded {
        case Err(code) => st, r, signed := Done, Some(MakeResponse(code)), None;
        case Ok(a) => st, r, signed := ProcessApdu(a, send, env);
      }
    }

    /** vcard_reset of a VM card */
    method PowerCycle()
      requires Ready()
      modifies this`pending, current
      ensures Ready() && View() == Reset(old(View()))
      ensures current[..] == [None, None, None, None] && pending == None
      ensures applets == old(applets) && windows == old(windows)
    {
      for i := 0 to MAX_CHANNEL
        modifies current
        invariant forall k :: 0 <= k < i ==> current[k] == None
      {
        current[i] := None;
      }
      pending := None;
      assert current[..] == [None, None, None, None];
    }
  }

  datatype ReaderStatus = ReaderOk | NoCard

  /** The part of a reader that matters here: the card in its slot. */
  class VReader {
    var card: VCard?

    /** vreader_xfr_bytes: with a valid card in the slot the exchange succeeds whatever the bytes are, the
      * card stays valid, and the caller gets as much of the answer as its buffer holds. */
    method XfrBytes(send: seq<byte>, receive: array<byte>, env: Env) returns (status: ReaderStatus, size: nat)
      requires card != null ==> card.Ready() && receive as object != card && receive as object != card.current
      modifies receive, if card == null then {} else {card, card.current}
      ensures status == if card == null then NoCard else ReaderOk
      ensures card == old(card)
      ensures card != null ==>
                && card.Ready() && card.View() == Xfr(old(card.View()), send, env).card
                && size == Min(receive.Length, |Answer(old(card.View()), send, env)|)
                && Wrote(old(receive[..]), receive[..], 0, Answer(old(card.View()), send, env)[..size])
    {
      size := 0;
      if card == null {
        status := NoCard;
        return;
      }
      var st, r, signed := card.Exchange(send, env);
      if st == Fail {
        status := NoCard;
        return;
      }
      var data := r.value.Bytes();
      size := Min(receive.Length, |data|);
      SimpleTlvCodec.Copy(data[..size], receive, 0);
      status := ReaderOk;
    }
  }

  lemma PrependNothing(b: Option<seq<Member>>)
    ensures Prepend([], b) == b
  {
    if b.Some? {
      assert [] + b.value == b.value;
    }
  }

  lemma PrependStep(cp: seq<Member>, props: seq<Member>, tags: seq<byte>, j: nat)
    requires j < |tags|
    ensures Prepend(cp, SelectTags(props, tags[j..]))
         == if FindTag(props, tags[j]).None? then None
            else Prepend(cp + [FindTag(props, tags[j]).value], SelectTags(props, tags[j + 1..]))
  {
    assert tags[j..][1..] == tags[j + 1..];
    if FindTag(props, tags[j]).Some? && SelectTags(props, tags[j + 1..]).Some? {
      Assoc(cp, [FindTag(props, tags[j]).value], SelectTags(props, tags[j + 1..]).value);
    }
  }

  function Prepend(a: seq<Member>, b: Option<seq<Member>>): Option<seq<Member>> {
    if b.None? then None else Some(a + b.value)
  }
}
