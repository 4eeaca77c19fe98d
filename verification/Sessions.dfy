/** Whole sessions with a card as the program makes it: every command answered, every key signing what was chained
  * for it, every certificate delivered. */
module Sessions {
  import opened Bytes
  import opened SimpleTlv
  import opened Apdus
  import opened Card
  import opened CardSteps
  import opened CardInit
  import opened CardContents
  import A = Acr
  import AcaTables
  import Answers
  import CacFile
  import CardRuns
  import Commands
  import Pkcs1
  import Transfers

  /** Whatever is sent to a card made from certificates, in whatever order and with whatever resets in between,
    * every command gets a response of at least two bytes; channels 2 and 3 stay empty for ever and the others hold
    * nothing or one of the card's own applets. */
  lemma RealCardAnswers(certs: seq<Cert>, p: Parts, es: seq<CardRuns.Event>, raw: seq<byte>, env: Env)
    requires p.tables.Ok() && InitialApplets(certs, p).Some?
    ensures var c := MadeCard(certs, p);
            var d := CardRuns.Run(c, es);
            var o := Xfr(d, raw, env);
            && o.status == Done && o.response.Some? && |o.response.value.Bytes()| >= 2
            && d.current[2].None? && d.current[3].None? && |d.applets| == |c.applets|
            && (d.current[0].Some? ==> d.current[0].value < |c.applets|)
            && (d.current[1].Some? ==> d.current[1].value < |c.applets|)
  {
    InitialCardOk(certs, p);
    CardRuns.EveryCommandIsAnswered(MadeCard(certs, p), es, raw, env);
  }

  /** Each certificate's key signs exactly the bytes chained to its applet and the final body. */
  lemma RealCardSigns(certs: seq<Cert>, p: Parts, es: seq<CardRuns.Event>, raw: seq<byte>, env: Env, i: nat)
    requires p.tables.Ok() && InitialApplets(certs, p).Some? && i < |certs|
    ensures var c := MadeCard(certs, p);
            i < |c.applets| && CardRuns.Run(c, es).applets[i].kind.Pki? && CardRuns.Run(c, es).applets[i].kind.key == i
    ensures var c := MadeCard(certs, p);
            var ev := CardRuns.Classify(CardRuns.Run(c, es), CardRuns.Command(raw, env), i);
            forall data :: Xfr(CardRuns.Run(c, es), raw, env).signed == Some((i, data))
                      <==> ev.Final? && data == CardRuns.Chained(CardRuns.History(c, es, i)) + ev.body
  {
    InitialCardOk(certs, p);
    PkiContents(certs, p, i);
    var c := MadeCard(certs, p);
    assert SameIdentity(c.applets[i], CardRuns.Run(c, es).applets[i]);
    CardRuns.SignedBytesAreTheChain(c, es, raw, env, i);
  }

  /** In whatever valid state: a certificate's applet that is selected gives, read in any chunks and cut by its
    * lengths, exactly that certificate, and the card is left as it was. */
  lemma CertificateIsRead(d: CardState, cert: Cert, cla: byte, i: nat, tagPlan: seq<Transfers.Chunk>,
                          valPlan: seq<Transfers.Chunk>)
    requires CardOk(d) && Transfers.PlainClass(cla) && d.current[Channel(cla)] == Some(i) && d.pending.None?
    requires |cert.der| < 0xffff && d.applets[i].kind.Pki?
    requires d.applets[i].tagFile == Some(CacFile.FileOf(PkiBuffer(cert.der), TL))
    requires d.applets[i].valFile == Some(CacFile.FileOf(PkiBuffer(cert.der), Value))
    requires Transfers.PlanOk(tagPlan, 0) && Transfers.Sizes(tagPlan) >= 12
    requires Transfers.PlanOk(valPlan, 0) && Transfers.Sizes(valPlan) >= |cert.der| + 3
    ensures Transfers.ReadBoth(d, cla, tagPlan, valPlan) == (d, Some(PkiBuffer(cert.der)))
  {
    PkiFilesExist(cert.der);
    PkiBufferLengths(cert.der);
    PkiBufferKept(cert.der);
    Transfers.EndToEnd(d, cla, i, PkiBuffer(cert.der), tagPlan, valPlan);
  }

  /** The same for the CCC: the host gets its whole list, with the URLs of exactly the certificates there are. */
  lemma CccIsRead(d: CardState, certs: nat, cla: byte, i: nat, tagPlan: seq<Transfers.Chunk>,
                  valPlan: seq<Transfers.Chunk>)
    requires CardOk(d) && Transfers.PlainClass(cla) && d.current[Channel(cla)] == Some(i) && d.pending.None?
    requires d.applets[i].kind.Plain?
    requires d.applets[i].tagFile == Some(CacFile.FileOf(CccBuffer(certs), TL))
    requires d.applets[i].valFile == Some(CacFile.FileOf(CccBuffer(certs), Value))
    requires Transfers.PlanOk(tagPlan, 0) && Transfers.Sizes(tagPlan) >= |Encode(CccBuffer(certs), TL)| + 2
    requires Transfers.PlanOk(valPlan, 0) && Transfers.Sizes(valPlan) >= |Encode(CccBuffer(certs), Value)| + 2
    ensures Transfers.ReadBoth(d, cla, tagPlan, valPlan) == (d, Some(Kept(CccBuffer(certs))))
  {
    hide CccBuffer, CacFile.ReadFiles;
    CccFilesExist(certs);
    Transfers.EndToEnd(d, cla, i, CccBuffer(certs), tagPlan, valPlan);
  }

  /** A whole session with a card made from certificates: after any run, selecting the applet of a certificate by its
    * AID and reading its two files, with any Le values and chunks, gives a template with that AID and exactly that
    * certificate. */
  lemma RealCardGivesCertificate(certs: seq<Cert>, p: Parts, es: seq<CardRuns.Event>, cla: byte, i: nat, le: nat,
                                 extended: bool, l: seq<Transfers.Fetch>, env: Env,
                                 tagPlan: seq<Transfers.Chunk>, valPlan: seq<Transfers.Chunk>)
    requires p.tables.Ok() && InitialApplets(certs, p).Some? && i < |certs| <= A.PKI_SLOTS
    requires Transfers.PlainClass(cla) && Answers.LengthsOk(PkiAid(i), le, extended)
    requires Transfers.FetchesOk(l) && Transfers.Total(l) >= 27
    requires Transfers.PlanOk(tagPlan, 0) && Transfers.Sizes(tagPlan) >= 12
    requires Transfers.PlanOk(valPlan, 0) && Transfers.Sizes(valPlan) >= |certs[i].der| + 3
    ensures var d := CardRuns.Run(MadeCard(certs, p), es);
            var (s, fci) := Transfers.Ask(d, cla, Answers.SelectCommand(cla, PkiAid(i), le, extended), l, env);
            && Answers.AidIn(fci) == Some(PkiAid(i))
            && Transfers.ReadBoth(s, cla, tagPlan, valPlan)
               == (s, Some([Member(0x71, Leaf([0x00])), Member(0x70, Leaf(certs[i].der)), Member(0x72, Leaf([])),
                            Member(0xfe, Leaf([]))]))
  {
    hide InitialApplets, AppletOk, Xfr, Decode, Transfers.Ask, Transfers.ReadBoth, PkiBuffer, FindApplet, SameApplets,
         CacFile.FileOf, Encode;
    PkiBufferIs(certs[i].der);
    var c := MadeCard(certs, p);
    var d := CardRuns.Run(c, es);
    PkiContents(certs, p, i);
    AppletKept(c, d, i);
    PkiIsFound(certs, p, d, i);
    Answers.SelectArrives(d, cla, PkiAid(i), le, extended, l, env);
    var s := Transfers.Ask(d, cla, Answers.SelectCommand(cla, PkiAid(i), le, extended), l, env).0;
    assert s.applets[i] == ResetApplet(d.applets[i]);
    CertificateIsRead(s, certs[i], cla, i, tagPlan, valPlan);
  }

  /** What the environment answers for one RSA operation is what the token makes of it. */
  predicate Carries(env: Env, r: Pkcs1.Result) {
    env.rsaStatus == r.status && forall k: nat :: k < |r.data| ==> env.rsaOut(k) == r.data[k]
  }

  /** After any run, a final SIGN/DECRYPT delivers to the host, at once or by GET RESPONSE, exactly what the RSA
    * operation makes of everything chained since the last end and the final body. */
  lemma RealCardDeliversResult(certs: seq<Cert>, p: Parts, es: seq<CardRuns.Event>, cla: byte, i: nat,
                               body: seq<byte>, le: nat, extended: bool, l: seq<Transfers.Fetch>, env: Env,
                               state: Pkcs1.RawState, t: Pkcs1.Token)
    requires p.tables.Ok() && InitialApplets(certs, p).Some? && i < |certs| <= A.PKI_SLOTS
    requires Transfers.PlainClass(cla) && Answers.LengthsOk(body, le, extended) && Transfers.FetchesOk(l)
    requires var c := MadeCard(certs, p);
             var data := CardRuns.Chained(CardRuns.History(c, es, i)) + body;
             && CardRuns.Run(c, es).current[Channel(cla)] == Some(i)
             && t.Ok() && Carries(env, Pkcs1.RsaOp(state, data, t)) && Transfers.Total(l) >= |data|
    ensures var c := MadeCard(certs, p);
            var raw := Answers.SignCommand(cla, body, le, extended);
            var r := Pkcs1.RsaOp(state, CardRuns.Chained(CardRuns.History(c, es, i)) + body, t);
            if r.status == SUCCESS then Transfers.Ask(CardRuns.Run(c, es), cla, raw, l, env).1 == r.data
            else Xfr(CardRuns.Run(c, es), raw, env).response == Some(MakeResponse(r.status))
  {
    hide InitialApplets, AppletOk, Xfr, Decode, Transfers.Ask, Pkcs1.RsaOp, CardRuns.History, CardRuns.Chained;
    InitialCardOk(certs, p);
    var c := MadeCard(certs, p);
    assert Some(c.applets[i]) == PkiApplet(i, certs[i]);
    CardRuns.SignBufferIsTheChain(c, es, i);
    var data := CardRuns.Chained(CardRuns.History(c, es, i)) + body;
    Answers.SignatureArrives(CardRuns.Run(c, es), cla, i, body, le, extended, l, env);
    Pkcs1.RsaOpIsInPlace(state, data, t);
    ResultIsCarried(env, Pkcs1.RsaOp(state, data, t), data);
  }

  lemma ResultIsCarried(env: Env, r: Pkcs1.Result, data: seq<byte>)
    requires Carries(env, r) && |r.data| == |data|
    ensures RsaResult(env, data) == r.data
  {
  }

  /** With a token whose operations are all made of one raw RSA operation: when the chained pieces and the final body
    * make up a block padded for signing, every successful answer is that operation on the block, whether the token
    * offers it or it had to be emulated. */
  lemma RealCardDeliversSignature(certs: seq<Cert>, p: Parts, es: seq<CardRuns.Event>, cla: byte, i: nat,
                                  body: seq<byte>, le: nat, extended: bool, l: seq<Transfers.Fetch>, env: Env,
                                  state: Pkcs1.RawState, t: Pkcs1.Token, raw: seq<byte> -> seq<byte>, k: nat,
                                  m: seq<byte>)
    requires p.tables.Ok() && InitialApplets(certs, p).Some? && i < |certs| <= A.PKI_SLOTS
    requires Transfers.PlainClass(cla) && Answers.LengthsOk(body, le, extended) && Transfers.FetchesOk(l)
    requires var c := MadeCard(certs, p);
             var data := CardRuns.Chained(CardRuns.History(c, es, i)) + body;
             && CardRuns.Run(c, es).current[Channel(cla)] == Some(i)
             && data == Pkcs1.SignBlock(k, m) && k >= 8 && Pkcs1.Honest(t, data, raw)
             && Carries(env, Pkcs1.RsaOp(state, data, t)) && Transfers.Total(l) >= |data|
    ensures var c := MadeCard(certs, p);
            env.rsaStatus == SUCCESS ==>
              Transfers.Ask(CardRuns.Run(c, es), cla, Answers.SignCommand(cla, body, le, extended), l, env).1
              == raw(Pkcs1.SignBlock(k, m))
  {
    RealCardDeliversResult(certs, p, es, cla, i, body, le, extended, l, env, state, t);
    Pkcs1.SignatureIsTheRawOne(state, k, m, t, raw);
  }

  /** The AID of a certificate's applet finds that applet, in every state, and not the card manager. */
  lemma PkiIsFound(certs: seq<Cert>, p: Parts, d: CardState, i: nat)
    requires p.tables.Ok() && InitialApplets(certs, p).Some? && i < |certs| <= A.PKI_SLOTS
    requires SameApplets(MadeCard(certs, p), d)
    ensures FindApplet(d.applets, PkiAid(i)) == Some(i) && FindApplet(d.applets, GP_AID) != Some(i)
  {
    hide InitialApplets, CardOk, OTHER_AIDS, FindApplet;
    StaticAids(p);
    AidIsFound(certs, p, d, i);
    AidIsFound(certs, p, d, |certs| + MANAGER);
  }

  /** The other applets, by their AIDs: each finds its own. */
  lemma OtherIsFound(certs: seq<Cert>, p: Parts, d: CardState, k: nat)
    requires p.tables.Ok() && InitialApplets(certs, p).Some? && k < 15 && SameApplets(MadeCard(certs, p), d)
    ensures |OTHER_AIDS| == 15 && |certs| <= 10
    ensures FindApplet(d.applets, OTHER_AIDS[k]) == Some(|certs| + k)
    ensures FindApplet(d.applets, GP_AID) == Some(|certs| + 13)
  {
    hide InitialApplets, CardOk, OTHER_AIDS, FindApplet;
    StaticAids(p);
    AidsOfTheCard(certs, p);
    AidIsFound(certs, p, d, |certs| + k);
    AidIsFound(certs, p, d, |certs| + MANAGER);
  }

  lemma AppletKept(c: CardState, d: CardState, i: nat)
    requires SameApplets(c, d) && i < |c.applets|
    ensures i < |d.applets| && SameIdentity(c.applets[i], d.applets[i])
  {
  }

  /** The list has the URL of certificate `k` exactly if there are more than `k`. */
  predicate ListsCertificates(l: seq<Member>, n: nat) {
    forall k: nat :: k < 10 ==> (UrlOf(k) in l <==> k < n)
  }

  /** After any run, selecting the CCC by its AID, A0 00 00 01 16 DB 00, and reading its files gives its whole list; the
    * list has the URL of certificate `k` exactly if there is one. */
  lemma RealCardGivesCcc(certs: seq<Cert>, p: Parts, es: seq<CardRuns.Event>, cla: byte, le: nat, extended: bool,
                         l: seq<Transfers.Fetch>, env: Env, tagPlan: seq<Transfers.Chunk>,
                         valPlan: seq<Transfers.Chunk>)
    requires p.tables.Ok() && InitialApplets(certs, p).Some?
    requires Transfers.PlainClass(cla) && Transfers.FetchesOk(l) && Transfers.Total(l) >= 27
    requires Answers.LengthsOk([0xa0, 0x00, 0x00, 0x01, 0x16, 0xdb, 0x00], le, extended)
    requires Transfers.PlanOk(tagPlan, 0) && Transfers.Sizes(tagPlan) >= |Encode(CccBuffer(|certs|), TL)| + 2
    requires Transfers.PlanOk(valPlan, 0) && Transfers.Sizes(valPlan) >= |Encode(CccBuffer(|certs|), Value)| + 2
    ensures var d := CardRuns.Run(MadeCard(certs, p), es);
            var aid := [0xa0, 0x00, 0x00, 0x01, 0x16, 0xdb, 0x00];
            var (s, fci) := Transfers.Ask(d, cla, Answers.SelectCommand(cla, aid, le, extended), l, env);
            var got := Transfers.ReadBoth(s, cla, tagPlan, valPlan);
            && Answers.AidIn(fci) == Some(aid) && got.0 == s && got.1 == Some(Kept(CccBuffer(|certs|)))
            && ListsCertificates(got.1.value, |certs|)
  {
    hide InitialApplets, AppletOk, Xfr, Decode, Transfers.Ask, Transfers.ReadBoth, CccBuffer, FindApplet, Kept,
         CacFile.FileOf, ListsCertificates, SameApplets, Encode;
    var c := MadeCard(certs, p);
    var d := CardRuns.Run(c, es);
    StaticAids(p);
    CccContents(certs, p);
    OtherIsFound(certs, p, d, 1);
    var aid := OTHER_AIDS[1];
    AppletKept(c, d, |certs| + 1);
    Answers.SelectArrives(d, cla, aid, le, extended, l, env);
    var s := Transfers.Ask(d, cla, Answers.SelectCommand(cla, aid, le, extended), l, env).0;
    CccIsRead(s, |certs|, cla, |certs| + 1, tagPlan, valPlan);
    WhatCccLists(|certs|);
  }

  lemma WhatCccLists(n: nat)
    requires n <= 10
    ensures ListsCertificates(Kept(CccBuffer(n)), n)
  {
    forall k: nat | k < 10 ensures UrlOf(k) in Kept(CccBuffer(n)) <==> k < n {
      CccListsCertificates(n, k);
    }
  }

  /** After any run, selecting the ACA by its AID, A0 00 00 00 79 03 00, and asking for all applets gives the rules of
    * every applet in use, for as many certificates as there are. */
  lemma RealCardGivesRules(certs: seq<Cert>, p: Parts, es: seq<CardRuns.Event>, cla: byte, le: nat, le2: nat,
                           extended: bool, l: seq<Transfers.Fetch>, m: seq<Transfers.Fetch>, env: Env, env2: Env)
    requires p.tables.Ok() && InitialApplets(certs, p).Some? && |certs| <= 10
    requires Transfers.PlainClass(cla) && Transfers.FetchesOk(l) && Transfers.Total(l) >= 27 && Transfers.FetchesOk(m)
    requires Answers.LengthsOk([0xa0, 0x00, 0x00, 0x00, 0x79, 0x03, 0x00], le, extended)
    requires Answers.LengthsOk([], le2, extended)
    requires Transfers.Total(m) >= |Answers.TableBytes(AcaTables.AppletAcrList(|certs|, []).value)|
    ensures var d := CardRuns.Run(MadeCard(certs, p), es);
            var aid := [0xa0, 0x00, 0x00, 0x00, 0x79, 0x03, 0x00];
            var (s, fci) := Transfers.Ask(d, cla, Answers.SelectCommand(cla, aid, le, extended), l, env);
            var (e, data) := Transfers.Ask(s, cla, Answers.AcrCommand(cla, 0x10, [], le2, extended), m, env2);
            && Answers.AidIn(fci) == Some(aid) && e == s
            && |A.APPLETS_TABLE| == 23 && Answers.ShowsApplets(Parse(data), A.InUse(A.APPLETS_TABLE, |certs|))
  {
    hide InitialApplets, AppletOk, Xfr, Decode, Transfers.Ask, FindApplet, A.APPLETS_TABLE, Answers.ShowsApplets, Parse,
         SameApplets;
    A.AppletsTableBounded();
    var c := MadeCard(certs, p);
    var d := CardRuns.Run(c, es);
    StaticAids(p);
    AcaContents(certs, p);
    OtherIsFound(certs, p, d, 0);
    var aid := OTHER_AIDS[0];
    AppletKept(c, d, |certs|);
    Answers.SelectArrives(d, cla, aid, le, extended, l, env);
    var s := Transfers.Ask(d, cla, Answers.SelectCommand(cla, aid, le, extended), l, env).0;
    Answers.AppletTableArrives(s, cla, |certs|, le2, extended, m, env2);
    Transfers.NoneDropped(s);
  }

  /** The object ids of the applet at index `i`: a certificate's own, or those of the table. */
  function ObjectIds(n: nat, i: nat): seq<(byte, byte)>
    requires n <= 10 && i < n + |OTHER_OBJECTS|
  {
    if i < n then [(0x01, i)] else OTHER_OBJECTS[i - n]
  }

  lemma ObjectsOfTheCard(certs: seq<Cert>, p: Parts, i: nat)
    requires InitialApplets(certs, p).Some? && i < |certs| + 13
    ensures |certs| <= 10 && |OTHER_OBJECTS| == 13 && i < |InitialApplets(certs, p).value|
    ensures InitialApplets(certs, p).value[i].coids == ObjectIds(|certs|, i)
    ensures !InitialApplets(certs, p).value[i].kind.DataObjects?
  {
    hide InitialApplets;
    OtherContents(certs, p, 2);
    AcaContents(certs, p);
    CccContents(certs, p);
    if i < |certs| {
      PkiContents(certs, p, i);
    } else if i >= |certs| + 2 {
      OtherContents(certs, p, i - |certs|);
    }
  }

  /** After any run, on whatever channel one of the card's CAC applets is selected: SELECT finds exactly its object
    * ids. */
  lemma RealCardObjects(certs: seq<Cert>, p: Parts, es: seq<CardRuns.Event>, raw: seq<byte>, body: seq<byte>, env: Env,
                        i: nat)
    requires p.tables.Ok() && InitialApplets(certs, p).Some? && i < |certs| + 13
    requires Commands.Carries(raw, body) && |body| == 2 && raw[1] == 0xa4 && raw[2] == 0x02
    requires CardRuns.Run(MadeCard(certs, p), es).current[Commands.ChannelOf(raw[0])] == Some(i)
    ensures |certs| <= 10 && |OTHER_OBJECTS| == 13
    ensures var d := CardRuns.Run(MadeCard(certs, p), es);
            if (body[0], body[1]) in ObjectIds(|certs|, i) then
              Commands.Bare(Xfr(d, raw, env), 0x90, 0x00, d.(pending := None))
            else Commands.Bare(Xfr(d, raw, env), 0x6a, 0x82, d.(pending := None))
  {
    hide InitialApplets, AppletOk, Xfr, Decode, Commands.Bare, ObjectIds, SameApplets, OTHER_OBJECTS;
    ObjectsOfTheCard(certs, p, i);
    var c := MadeCard(certs, p);
    var d := CardRuns.Run(c, es);
    AppletKept(c, d, i);
    Commands.ObjectIsFound(d, raw, body, env, i);
    assert Commands.Dropped(d, raw) == d.(pending := None);
  }

  /** After any run, a final SIGN/DECRYPT says what became of the operation, for every token, whatever is remembered of
    * it and whatever has been chained: the raw operation's result where it is used, data exactly when the operation
    * succeeds, and otherwise a status: 6985 for a key that is not ready, 6984 for a block of the wrong length. */
  lemma RealCardSaysWhatBecame(certs: seq<Cert>, p: Parts, es: seq<CardRuns.Event>, cla: byte, i: nat,
                               body: seq<byte>, le: nat, extended: bool, l: seq<Transfers.Fetch>, env: Env,
                               state: Pkcs1.RawState, t: Pkcs1.Token)
    requires p.tables.Ok() && InitialApplets(certs, p).Some? && i < |certs| <= A.PKI_SLOTS
    requires Transfers.PlainClass(cla) && Answers.LengthsOk(body, le, extended) && Transfers.FetchesOk(l)
    requires var c := MadeCard(certs, p);
             var data := CardRuns.Chained(CardRuns.History(c, es, i)) + body;
             && CardRuns.Run(c, es).current[Channel(cla)] == Some(i)
             && t.Ok() && Carries(env, Pkcs1.RsaOp(state, data, t)) && Transfers.Total(l) >= |data|
    ensures var c := MadeCard(certs, p);
            var raw := Answers.SignCommand(cla, body, le, extended);
            var data := CardRuns.Chained(CardRuns.History(c, es, i)) + body;
            var got := Transfers.Ask(CardRuns.Run(c, es), cla, raw, l, env).1;
            var r := Xfr(CardRuns.Run(c, es), raw, env).response;
            && (Pkcs1.Succeeds(state, data, t) ==>
                  exists known :: Pkcs1.Outcome(0x9000, got, known, state, data, t))
            && (t.ready && |data| == t.size && Pkcs1.UsesRaw(state, t) ==> got == t.raw.value)
            && (!Pkcs1.Succeeds(state, data, t) ==>
                  && r.Some? && r.value.Response? && r.value.data == [] && (r.value.sw1, r.value.sw2) != (0x90, 0x00)
                  && (!t.ready ==> r.value == Response([], 0x69, 0x85))
                  && (t.ready && |data| != t.size ==> r.value == Response([], 0x69, 0x84)))
  {
    hide InitialApplets, Xfr, Decode, Transfers.Ask, Pkcs1.RsaOp, CardRuns.History, CardRuns.Chained, CardRuns.Run,
         Pkcs1.Outcome, Pkcs1.Succeeds;
    RealCardDeliversResult(certs, p, es, cla, i, body, le, extended, l, env, state, t);
    var data := CardRuns.Chained(CardRuns.History(MadeCard(certs, p), es, i)) + body;
    Pkcs1.RsaOutcome(state, data, t);
    OutcomeSays(Pkcs1.RsaOp(state, data, t), state, data, t);
  }

  lemma OutcomeSays(r: Pkcs1.Result, state: Pkcs1.RawState, data: seq<byte>, t: Pkcs1.Token)
    requires t.Ok() && Pkcs1.Outcome(r.status, r.data, r.state, state, data, t)
    ensures t.ready && |data| == t.size && Pkcs1.UsesRaw(state, t) ==> r.status == 0x9000 && r.data == t.raw.value
    ensures !t.ready ==> r.status == 0x6985
    ensures t.ready && |data| != t.size ==> r.status == 0x6984
    ensures r.status != 0x9000 ==>
              (MakeResponse(r.status).sw1, MakeResponse(r.status).sw2) != (0x90, 0x00)
              && MakeResponse(r.status).data == []
  {
  }

  /** A chain of pieces, of any number and sizes, and a final command to a selected certificate's applet: every piece is
    * answered 9000, the key is used once, on everything the buffer held, the pieces and the body, and the host gets the
    * whole result. */
  lemma ChainIsSigned(c: CardState, cla: byte, i: nat, pieces: seq<seq<byte>>, body: seq<byte>, le: nat,
                      extended: bool, l: seq<Transfers.Fetch>, before: Env, env: Env)
    requires CardOk(c) && Transfers.PlainClass(cla) && Answers.LengthsOk(body, le, extended) && Transfers.FetchesOk(l)
    requires c.current[Channel(cla)] == Some(i) && c.applets[i].kind.Pki?
    requires pieces != [] && Commands.PiecesOk(pieces, extended)
    requires Transfers.Total(l) >= |c.applets[i].kind.sign + Commands.Concat(pieces) + body|
    ensures var (d, answers) := Commands.SendPieces(c, cla, pieces, extended, before);
            var raw := Answers.SignCommand(cla, body, le, extended);
            var data := c.applets[i].kind.sign + Commands.Concat(pieces) + body;
            var e := Commands.WithSign(c.(pending := None), i, []);
            && (forall k :: 0 <= k < |answers| ==> answers[k] == Response([], 0x90, 0x00))
            && Xfr(d, raw, env).signed == Some((i, data))
            && (env.rsaStatus == 0x9000 ==> Transfers.Ask(d, cla, raw, l, env) == (e, RsaResult(env, data)))
            && (env.rsaStatus != 0x9000 ==>
                  Xfr(d, raw, env).response == Some(MakeResponse(env.rsaStatus)) && Xfr(d, raw, env).card == e)
  {
    hide Xfr, Decode, Transfers.Ask, Commands.SendPieces;
    Commands.ChannelIs(cla);
    Commands.PiecesKept(c, cla, i, pieces, extended, before);
    var d := Commands.SendPieces(c, cla, pieces, extended, before).0;
    Answers.SignatureArrives(d, cla, i, body, le, extended, l, env);
    SignOverwritten(c.(pending := None), i, c.applets[i].kind.sign + Commands.Concat(pieces));
  }

  lemma SignOverwritten(c: CardState, i: nat, sign: seq<byte>)
    requires i < |c.applets| && c.applets[i].kind.Pki?
    ensures var d := Commands.WithSign(c, i, sign);
            SetKind(d, i, d.applets[i].kind.(sign := [])) == Commands.WithSign(c, i, [])
  {
  }

  lemma PkiBufferIs(der: seq<byte>)
    ensures PkiBuffer(der) == [Member(0x71, Leaf([0x00])), Member(0x70, Leaf(der)), Member(0x72, Leaf([])),
                               Member(0xfe, Leaf([]))]
  {
  }

  lemma PkiBufferKept(der: seq<byte>)
    ensures Flat(PkiBuffer(der)) && Kept(PkiBuffer(der)) == PkiBuffer(der)
  {
    LeavesKept(PkiBuffer(der));
  }

  /** After any run, a certificate's applet that is selected tells its object's id and sizes when asked for tag 51, and
    * the sizes are those of the two files that hold the certificate, as far as two bytes can say. */
  lemma RealCardDescribesCertificate(certs: seq<Cert>, p: Parts, es: seq<CardRuns.Event>, cla: byte, i: nat, le: nat,
                                     extended: bool, l: seq<Transfers.Fetch>, env: Env)
    requires p.tables.Ok() && InitialApplets(certs, p).Some? && i < |certs|
    requires Transfers.PlainClass(cla) && le <= 22 && Transfers.FetchesOk(l) && Transfers.Total(l) >= 22
    requires CardRuns.Run(MadeCard(certs, p), es).current[Channel(cla)] == Some(i)
    ensures |certs| <= 10
    ensures var d := CardRuns.Run(MadeCard(certs, p), es);
            var raw := Answers.PropertiesCommand(cla, 0x02, [0x51], le, extended);
            var got := Parse(Transfers.Ask(d, cla, raw, l, env).1);
            && i < |d.applets| && d.applets[i].tagFile.Some? && d.applets[i].valFile.Some?
            && |got| == 1 && got[0].tag == 0x51 && got[0].body.Leaf?
            && var parts := Parse(got[0].body.value);
               && |parts| == 4 && parts[0] == Member(0x41, Leaf([0x01, i]))
               && parts[1] == Member(0x42, Leaf([0x00] + Le16(|d.applets[i].tagFile.value|)
                                                       + Le16(|d.applets[i].valFile.value|)))
               && parts[2] == Member(0x43, Leaf([0x06, KeySize(certs[i].bits), 0x01, 0x01]))
               && parts[3] == Member(0x26, Leaf([0x01]))
               && |d.applets[i].valFile.value| == |certs[i].der| + 3
  {
    hide InitialApplets, AppletOk, Xfr, Decode, Transfers.Ask, PkiProperties, Parse, Encode, PkiEntry, FindTag, Content,
         Answers.ShortList;
    var c := MadeCard(certs, p);
    var d := CardRuns.Run(c, es);
    AidsOfTheCard(certs, p);
    PkiContents(certs, p, i);
    PkiDescribed(certs, p, i);
    AppletKept(c, d, i);
    var tl, v := |d.applets[i].tagFile.value|, |d.applets[i].valFile.value|;
    var size := KeySize(certs[i].bits);
    ShortListOf(d.applets[i], i, tl, v, certs[i].bits);
    EntryParses(i, tl, v, size);
    PartsOf(i, tl, v, size);
    Answers.PropertiesArrive(d, cla, i, [0x51], le, extended, l, env);
  }

  /** What asking the short list for tag 51 selects. */
  lemma ShortListOf(a: Applet, i: byte, tagLen: nat, valLen: nat, bits: int)
    requires AppletOk(a) && a.properties == PkiProperties(i, tagLen, valLen, bits) && a.shortLen == 3
    ensures var size := KeySize(bits);
            var m := Member(0x51, Compound(PkiEntry(i, tagLen, valLen, size)));
            var props := Answers.ShortList(a);
            && (forall k :: 0 <= k < |props| ==> !props[k].body.Skipped?)
            && FindTag(props, 0x51) == Some(m) && SelectTags(props, [0x51]) == Some([m])
            && |Encode([m], Both)| == 22 && Content(m) == Encode(PkiEntry(i, tagLen, valLen, size), Both)
  {
    hide Parse, FindTag, SelectTags, Encode;
    EntryOf(i, tagLen, valLen, bits);
    var size := KeySize(bits);
    EntryParses(i, tagLen, valLen, size);
    var m := Member(0x51, Compound(PkiEntry(i, tagLen, valLen, size)));
    EncodeOne(m, Both);
    ThirdIsFound(a.properties[..3], m);
  }

  lemma ThirdIsFound(props: seq<Member>, m: Member)
    requires |props| == 3 && props[0].tag != m.tag && props[1].tag != m.tag && props[2] == m
    ensures FindTag(props, m.tag) == Some(m) && SelectTags(props, [m.tag]) == Some([m])
  {
    assert FindTag(props, m.tag) == FindTag(props[1..], m.tag) == FindTag(props[1..][1..], m.tag) == Some(m);
    assert [m.tag][1..] == [] && SelectTags(props, []) == Some([]) && [m] + [] == [m];
  }

  lemma PartsOf(i: byte, tagLen: nat, valLen: nat, size: byte)
    ensures var l := PkiEntry(i, tagLen, valLen, size);
            && |l| == 4 && l[0] == Member(0x41, Leaf([0x01, i]))
            && l[1] == Member(0x42, Leaf([0x00] + Le16(tagLen) + Le16(valLen)))
            && l[2] == Member(0x43, Leaf([0x06, size, 0x01, 0x01])) && l[3] == Member(0x26, Leaf([0x01]))
  {
  }
}
