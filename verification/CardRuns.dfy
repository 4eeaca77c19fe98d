/** Whole runs of the card: safety, chained signing and response chaining. */
module CardRuns {
  import opened Bytes
  import opened Apdus
  import opened Card
  import opened CardSteps

  datatype Event = Command(raw: seq<byte>, env: Env) | PowerCycle

  function Step(c: CardState, e: Event): CardState
    requires CardOk(c)
  {
    match e
    case Command(raw, env) => Xfr(c, raw, env).card
    case PowerCycle => Reset(c)
  }

  /** The state after a run. */
  function Run(c: CardState, es: seq<Event>): (d: CardState)
    requires CardOk(c)
    ensures CardOk(d) && SameApplets(c, d)
  {
    if es == [] then c
    else
      var d := Run(c, es[..|es| - 1]);
      StepSound(d, es[|es| - 1]);
      Step(d, es[|es| - 1])
  }

  lemma StepSound(c: CardState, e: Event)
    requires CardOk(c)
    ensures CardOk(Step(c, e)) && SameApplets(c, Step(c, e))
  {
    if e.Command? {
      XfrSound(c, e.raw, e.env);
    }
  }

  /** In every state a run can reach, every byte string is answered with at least two bytes. */
  lemma EveryCommandIsAnswered(c: CardState, es: seq<Event>, raw: seq<byte>, env: Env)
    requires CardOk(c)
    ensures var o := Xfr(Run(c, es), raw, env);
            o.status == Done && o.response.Some? && o.response.value.Response? && |o.response.value.Bytes()| >= 2
  {
    XfrSound(Run(c, es), raw, env);
  }

  // ---- Chained signing ----

  /** What one step means for the chain of one PKI applet. */
  datatype SignEvent = Chain(body: seq<byte>) | Final(body: seq<byte>) | Aborted | Selected | Other {
    predicate EndsChain() {
      Final? || Aborted? || Selected?
    }
  }

  /** SIGN/DECRYPT to applet `i`, on whatever channel it is selected, or the selection of `i` by its AID. */
  function Classify(c: CardState, e: Event, i: nat): SignEvent {
    if e.PowerCycle? || Decode(e.raw).Err? then Other
    else
      var a := Decode(e.raw).apdu;
      if |c.current| != MAX_CHANNEL || a.channel >= MAX_CHANNEL then Other
      else if a.ins == 0x42 && c.current[a.channel] == Some(i) then
        if a.p2 != 0 then Other
        else if a.p1 == 0x80 then Chain(a.body)
        else if a.p1 == 0x00 then Final(a.body)
        else Aborted
      else if a.ins == 0xa4 && a.p1 == 0x04 && a.genType == Iso && a.secureMessaging == 0
              && FindApplet(c.applets, a.body) == Some(i) then Selected
      else Other
  }

  /** The chain events of a run, for one applet. */
  function History(c: CardState, es: seq<Event>, i: nat): (h: seq<SignEvent>)
    requires CardOk(c)
    ensures |h| == |es|
  {
    if es == [] then []
    else
      var before := es[..|es| - 1];
      History(c, before, i) + [Classify(Run(c, before), es[|es| - 1], i)]
  }

  /** The number of events up to and including the last one that ended a chain. */
  function LastEnd(h: seq<SignEvent>): (k: nat)
    ensures k <= |h|
    ensures k == 0 || h[k - 1].EndsChain()
    ensures forall j :: k <= j < |h| ==> !h[j].EndsChain()
  {
    if h == [] then 0
    else if h[|h| - 1].EndsChain() then |h|
    else LastEnd(h[..|h| - 1])
  }

  /** The bodies of the chained commands, one after the other. */
  function Bodies(h: seq<SignEvent>): seq<byte> {
    if h == [] then [] else Bodies(h[..|h| - 1]) + if h[|h| - 1].Chain? then h[|h| - 1].body else []
  }

  /** What has been chained since the last end. */
  function Chained(h: seq<SignEvent>): seq<byte> {
    Bodies(h[LastEnd(h)..])
  }

  predicate IsPki(c: CardState, i: nat) {
    i < |c.applets| && c.applets[i].kind.Pki?
  }

  function SignBuffer(c: CardState, i: nat): seq<byte>
    requires IsPki(c, i)
  {
    c.applets[i].kind.sign
  }

  function AfterEvent(sign: seq<byte>, ev: SignEvent): seq<byte> {
    match ev
    case Chain(b) => sign + b
    case Other => sign
    case _ => []
  }

  lemma ChainedSnoc(h: seq<SignEvent>, ev: SignEvent)
    ensures Chained(h + [ev]) == AfterEvent(Chained(h), ev)
  {
    var g := h + [ev];
    assert g[..|g| - 1] == h;
    if !ev.EndsChain() {
      var k := LastEnd(h);
      assert g[k..][..|g[k..]| - 1] == h[k..];
    } else {
      assert g[|g|..] == [];
    }
  }

  /** One step does to the sign buffer what its classification says, and to no other sign buffer. */
  lemma SignStep(c: CardState, e: Event, i: nat)
    requires CardOk(c) && IsPki(c, i)
    ensures IsPki(Step(c, e), i)
    ensures SignBuffer(Step(c, e), i) == AfterEvent(SignBuffer(c, i), Classify(c, e, i))
    ensures e.Command? ==>
              var o := Xfr(c, e.raw, e.env);
              forall data :: o.signed == Some((i, data)) <==>
                             Classify(c, e, i).Final? && data == SignBuffer(c, i) + Classify(c, e, i).body
  {
    if e.Command? && Decode(e.raw).Ok? {
      CommandSignStep(c, e.raw, e.env, i);
    }
  }

  lemma CommandSignStep(c: CardState, raw: seq<byte>, env: Env, i: nat)
    requires CardOk(c) && IsPki(c, i) && Decode(raw).Ok?
    ensures var o := Xfr(c, raw, env);
            var ev := Classify(c, Command(raw, env), i);
            && IsPki(o.card, i) && SignBuffer(o.card, i) == AfterEvent(SignBuffer(c, i), ev)
            && forall data :: o.signed == Some((i, data)) <==> ev.Final? && data == SignBuffer(c, i) + ev.body
  {
    hide AppletProcess, VmProcess, FindApplet, Decode;
    var a := Decode(raw).apdu;
    DecodedChannel(raw);
    var d := DropPending(c, a);
    AppletSound(d, a, env);
    AppletSignStep(d, a, env, i);
    if AppletProcess(d, a, env).status == Next {
      VmSignStep(d, a, env, i);
    }
  }

  /** Handlers other than the PKI applet's own leave every sign buffer alone. */
  lemma AppletSignStep(c: CardState, a: Apdu, env: Env, i: nat)
    requires CardOk(c) && a.channel < MAX_CHANNEL && IsPki(c, i)
    ensures var o := AppletProcess(c, a, env);
            && IsPki(o.card, i)
            && if a.ins == 0x42 && c.current[a.channel] == Some(i) then
                 && o.status == Done
                 && SignBuffer(o.card, i) == (if a.p2 != 0 then SignBuffer(c, i)
                                              else if a.p1 == 0x80 then SignBuffer(c, i) + a.body else [])
                 && o.signed == (if a.p2 == 0 && a.p1 == 0x00 then Some((i, SignBuffer(c, i) + a.body)) else None)
               else
                 SignBuffer(o.card, i) == SignBuffer(c, i) && (o.signed.Some? ==> o.signed.value.0 != i)
  {
    match c.current[a.channel]
    case None =>
    case Some(j) =>
      match c.applets[j].kind {
        case Pki(_, _) => PkiSignStep(c, j, a, env, i);
        case Aca(_, _) => AcaSound(c, j, a);
        case Plain => ReadSound(c, j, a);
        case Passthrough(_) => PassthroughSound(c, j, a, env);
        case DataObjects(_, _) => DataObjectsSound(c, j, a);
      }
  }

  lemma PkiSignStep(c: CardState, j: nat, a: Apdu, env: Env, i: nat)
    requires CardOk(c) && IsPki(c, i) && IsPki(c, j)
    ensures var o := PkiProcess(c, j, a, env);
            && IsPki(o.card, i)
            && if a.ins == 0x42 && i == j then
                 && o.status == Done
                 && SignBuffer(o.card, i) == (if a.p2 != 0 then SignBuffer(c, i)
                                              else if a.p1 == 0x80 then SignBuffer(c, i) + a.body else [])
                 && o.signed == (if a.p2 == 0 && a.p1 == 0x00 then Some((i, SignBuffer(c, i) + a.body)) else None)
               else
                 SignBuffer(o.card, i) == SignBuffer(c, i) && (o.signed.Some? ==> o.signed.value.0 != i)
  {
    ReadSound(c, j, a);
  }

  lemma VmSignStep(c: CardState, a: Apdu, env: Env, i: nat)
    requires CardOk(c) && a.channel < MAX_CHANNEL && (a.secureMessaging == 0 ==> a.channel < 2) && IsPki(c, i)
    ensures var o := VmProcess(c, a, env);
            && IsPki(o.card, i) && o.signed.None?
            && SignBuffer(o.card, i) ==
               (if a.ins == 0xa4 && a.p1 == 0x04 && a.genType == Iso && a.secureMessaging == 0
                   && FindApplet(c.applets, a.body) == Some(i) then [] else SignBuffer(c, i))
  {
    if a.genType == Iso && a.secureMessaging == 0 {
      if a.ins == 0xa4 {
        VmSelectSignStep(c, a, i);
      } else if a.ins == 0xc0 {
        GetResponseSound(c, a);
      }
    }
  }

  lemma VmSelectSignStep(c: CardState, a: Apdu, i: nat)
    requires CardOk(c) && a.channel < 2 && IsPki(c, i)
    ensures var o := VmSelect(c, a);
            && IsPki(o.card, i) && o.signed.None?
            && SignBuffer(o.card, i) ==
               (if a.p1 == 0x04 && FindApplet(c.applets, a.body) == Some(i) then [] else SignBuffer(c, i))
  {
    hide FindApplet, Fci, AppletOk;
    VmSelectSound(c, a);
    var found := FindApplet(c.applets, a.body);
    var d := SelectApplet(c, a.channel, found);
    assert a.p1 == 0x04 ==> VmSelect(c, a).card.applets == d.applets;
  }

  /** In every run, over all channels and power cycles, the sign buffer of a PKI applet holds the bodies of
    * the P1=80 commands to it since its last selection or last completed or aborted operation. */
  lemma {:induction false} SignBufferIsTheChain(c: CardState, es: seq<Event>, i: nat)
    requires CardOk(c) && IsPki(c, i) && SignBuffer(c, i) == []
    ensures IsPki(Run(c, es), i)
    ensures SignBuffer(Run(c, es), i) == Chained(History(c, es, i))
  {
    if es == [] {
      assert History(c, es, i) == [];
    } else {
      var before, e := es[..|es| - 1], es[|es| - 1];
      SignBufferIsTheChain(c, before, i);
      SignStep(Run(c, before), e, i);
      ChainedSnoc(History(c, before, i), Classify(Run(c, before), e, i));
    }
  }

  /** The RSA operation gets exactly the chain followed by the final body, and only then. */
  lemma SignedBytesAreTheChain(c: CardState, es: seq<Event>, raw: seq<byte>, env: Env, i: nat)
    requires CardOk(c) && IsPki(c, i) && SignBuffer(c, i) == []
    ensures var d := Run(c, es);
            var ev := Classify(d, Command(raw, env), i);
            forall data :: Xfr(d, raw, env).signed == Some((i, data))
                      <==> ev.Final? && data == Chained(History(c, es, i)) + ev.body
  {
    SignBufferIsTheChain(c, es, i);
    SignStep(Run(c, es), Command(raw, env), i);
  }
}
