/** Channels and resets over whole runs: what is selected where, and what a reset takes away. */
module Resets {
  import opened Bytes
  import opened Apdus
  import opened Card
  import opened CardSteps
  import opened CardRuns
  import opened Commands

  /** An ordinary SELECT by AID. */
  predicate Selects(raw: seq<byte>) {
    Decode(raw).Ok? && |raw| >= 4 && Ordinary(raw[0]) && raw[1] == 0xa4 && raw[2] == 0x04
  }

  /** A command that may change what is selected on the channel. */
  predicate SelectsOn(raw: seq<byte>, ch: nat) {
    Selects(raw) && ch == ChannelOf(raw[0])
  }

  lemma AppletKeepsChannels(c: CardState, a: Apdu, env: Env)
    requires CardOk(c) && a.channel < MAX_CHANNEL
    ensures AppletProcess(c, a, env).card.current == c.current
  {
    hide PropertiesArm, GetAcr;
    match c.current[a.channel]
    case None =>
    case Some(i) =>
      match c.applets[i].kind {
        case Aca(_, _) => AcrKeepsChannels(c, c.applets[i].kind, a); PropertiesKeepChannels(c, c.applets[i], a);
        case DataObjects(_, _) =>
        case Passthrough(_) =>
          ReplaceOk(c, i, FetchedFiles(c.applets[i], env.stored));
          var d := c.(applets := c.applets[i := FetchedFiles(c.applets[i], env.stored)]);
          PropertiesKeepChannels(c, c.applets[i], a);
          PropertiesKeepChannels(d, d.applets[i], a);
        case _ => PropertiesKeepChannels(c, c.applets[i], a);
      }
  }

  lemma PropertiesKeepChannels(c: CardState, applet: Applet, a: Apdu)
    requires AppletOk(applet)
    ensures PropertiesArm(c, applet, a).card.current == c.current
  {
  }

  lemma AcrKeepsChannels(c: CardState, k: Kind, a: Apdu)
    requires CardOk(c) && k.Aca? && k.pki <= 10 && k.tables.Ok()
    ensures GetAcr(c, k, a).card.current == c.current
  {
    hide PickTable;
  }

  lemma VmKeepsChannels(c: CardState, a: Apdu, env: Env)
    requires CardOk(c) && a.channel < MAX_CHANNEL
    ensures var d := VmProcess(c, a, env).card;
            && |d.current| == |c.current|
            && forall ch :: 0 <= ch < 4 && d.current[ch] != c.current[ch] ==>
                 ch == a.channel && a.genType == Iso && a.secureMessaging == 0 && a.ins == 0xa4 && a.p1 == 0x04
  {
    hide FindApplet, Fci;
  }

  /** Only a SELECT by AID changes what is selected, and only on its own channel: what is selected with class 01 is not
    * seen with class 00. */
  lemma ChannelsAreApart(c: CardState, raw: seq<byte>, env: Env, ch: nat)
    requires CardOk(c) && ch < 4
    ensures var d := Xfr(c, raw, env).card;
            |d.current| == 4 && (d.current[ch] != c.current[ch] ==> SelectsOn(raw, ch))
  {
    if Decode(raw).Ok? {
      Routed(c, raw, env);
      var d, a := Dropped(c, raw), Decode(raw).apdu;
      AppletKeepsChannels(d, a, env);
      AppletSound(d, a, env);
      VmKeepsChannels(d, a, env);
    }
    hide AppletProcess, VmProcess;
  }

  /** So what is selected by a class byte of one channel is not seen by a class byte of another: there it is as if
    * nothing had been sent. */
  lemma SelectedElsewhereIsNotSeen(c: CardState, select: seq<byte>, raw: seq<byte>, e: Env, env: Env)
    requires CardOk(c) && Decode(select).Ok? && |select| >= 4 && Decode(raw).Ok? && |raw| >= 4 && Ordinary(raw[0])
    requires ChannelOf(select[0]) != ChannelOf(raw[0]) && c.current[ChannelOf(raw[0])] == None
    requires raw[1] != 0xa4 && raw[1] != 0x20 && raw[1] != 0xc0
    ensures var d := Xfr(c, select, e).card;
            CardOk(d) && Bare(Xfr(d, raw, env), 0x69, 0x00, d.(pending := None))
  {
    hide Xfr, Decode;
    XfrSound(c, select, e);
    ChannelsAreApart(c, select, e, ChannelOf(raw[0]));
    CardRefuses(Xfr(c, select, e).card, raw, env);
  }

  /** No event of the run selects anything on the channel. */
  predicate NeverSelects(es: seq<Event>, ch: nat) {
    forall k :: 0 <= k < |es| && es[k].Command? ==> !SelectsOn(es[k].raw, ch)
  }

  /** No event of the run selects anything. */
  predicate Selectless(es: seq<Event>) {
    forall k :: 0 <= k < |es| && es[k].Command? ==> !Selects(es[k].raw)
  }

  /** A reset: nothing is selected on any channel and nothing is pending; sign buffers, files and the Windows mark are
    * as before. */
  lemma ResetClears(c: CardState)
    requires CardOk(c)
    ensures var d := Step(c, PowerCycle);
            && d.current == [None, None, None, None] && d.pending == None
            && d.applets == c.applets && d.windows == c.windows
  {
  }

  lemma {:induction false} EmptyStaysEmpty(c: CardState, es: seq<Event>, ch: nat)
    requires CardOk(c) && ch < 4 && c.current[ch] == None && NeverSelects(es, ch)
    ensures Run(c, es).current[ch] == None
  {
    if es != [] {
      var n := |es| - 1;
      EmptyStaysEmpty(c, es[..n], ch);
      var d := Run(c, es[..n]);
      match es[n] {
        case Command(raw, env) => ChannelsAreApart(d, raw, env, ch);
        case PowerCycle => ResetClears(d);
      }
    }
  }

  lemma {:induction false} RunConcat(c: CardState, a: seq<Event>, b: seq<Event>)
    requires CardOk(c)
    ensures Run(c, a + b) == Run(Run(c, a), b)
  {
    if b == [] {
      assert a + b == a;
    } else {
      var n := |b| - 1;
      RunConcat(c, a, b[..n]);
      assert (a + b)[..|a + b| - 1] == a + b[..n];
    }
  }

  /** In every run, from a reset to the next SELECT on a channel: the channel holds no applet, so every instruction but
    * SELECT, VERIFY and GET RESPONSE gets the card's own 6900, READ BUFFER and SIGN/DECRYPT among them, and changes
    * nothing. */
  lemma NothingIsSelectedAfterReset(c: CardState, es: seq<Event>, more: seq<Event>, raw: seq<byte>, env: Env)
    requires CardOk(c) && Decode(raw).Ok? && |raw| >= 4 && Ordinary(raw[0]) && NeverSelects(more, ChannelOf(raw[0]))
    ensures var d := Run(c, es + [PowerCycle] + more);
            && d.current[ChannelOf(raw[0])] == None
            && (raw[1] != 0xa4 && raw[1] != 0x20 && raw[1] != 0xc0 ==>
                  Bare(Xfr(d, raw, env), 0x69, 0x00, d.(pending := None)))
  {
    hide Xfr, Decode;
    AfterReset(c, es, more);
    EmptyStaysEmpty(Run(c, es + [PowerCycle]), more, ChannelOf(raw[0]));
    CardRefuses(Run(c, es + [PowerCycle] + more), raw, env);
  }

  lemma AfterReset(c: CardState, es: seq<Event>, more: seq<Event>)
    requires CardOk(c)
    ensures var d := Run(c, es + [PowerCycle]);
            && d.current == [None, None, None, None] && d.pending == None
            && d.applets == Run(c, es).applets && d.windows == Run(c, es).windows
            && Run(c, es + [PowerCycle] + more) == Run(d, more)
  {
    assert (es + [PowerCycle])[..|es|] == es;
    ResetClears(Run(c, es));
    RunConcat(c, es + [PowerCycle], more);
  }

  /** Nothing is selected and nothing can be fetched. */
  predicate Blank(c: CardState) {
    c.current == [None, None, None, None] && c.pending == None
  }

  lemma BlankStep(c: CardState, raw: seq<byte>, env: Env)
    requires CardOk(c) && Blank(c) && !Selects(raw)
    ensures Xfr(c, raw, env).card == c
  {
    if Decode(raw).Ok? {
      Routed(c, raw, env);
      PassedOn(c, raw, env);
    }
    hide AppletProcess;
  }

  lemma {:induction false} BlankStays(c: CardState, es: seq<Event>)
    requires CardOk(c) && Blank(c) && Selectless(es)
    ensures Run(c, es) == c
  {
    if es != [] {
      var n := |es| - 1;
      BlankStays(c, es[..n]);
      match es[n] {
        case Command(raw, env) => BlankStep(c, raw, env);
        case PowerCycle => ResetClears(c);
      }
    }
  }

  /** In every run, from a reset to the next SELECT on whatever channel: the card is as the reset left it, whatever is
    * sent, and GET RESPONSE is answered 6A88. */
  lemma NothingIsPendingAfterReset(c: CardState, es: seq<Event>, more: seq<Event>, raw: seq<byte>, env: Env)
    requires CardOk(c) && Selectless(more)
    ensures var d := Run(c, es + [PowerCycle] + more);
            && d == Run(c, es).(current := [None, None, None, None], pending := None)
            && (Decode(raw).Ok? && |raw| >= 4 && Ordinary(raw[0]) && raw[1] == 0xc0 ==>
                  Bare(Xfr(d, raw, env), 0x6a, 0x88, d))
  {
    hide Xfr, Decode;
    AfterReset(c, es, more);
    BlankStays(Run(c, es + [PowerCycle]), more);
    if Decode(raw).Ok? && |raw| >= 4 && Ordinary(raw[0]) && raw[1] == 0xc0 {
      CardRefuses(Run(c, es + [PowerCycle] + more), raw, env);
    }
    ResetKeeps(c, es);
  }

  lemma ResetKeeps(c: CardState, es: seq<Event>)
    requires CardOk(c)
    ensures Run(c, es + [PowerCycle]) == Run(c, es).(current := [None, None, None, None], pending := None)
  {
    assert (es + [PowerCycle])[..|es|] == es;
  }

  /** The event asks a Windows applet for data it has. */
  predicate MarksWindows(c: CardState, e: Event) {
    e.Command? && ShowsWindows(c, e.raw)
  }

  ghost predicate MarksAt(c: CardState, es: seq<Event>, k: nat)
    requires CardOk(c) && k < |es|
  {
    MarksWindows(Run(c, es[..k]), es[k])
  }

  /** Some event of the run does. */
  ghost predicate Marked(c: CardState, es: seq<Event>)
    requires CardOk(c)
  {
    exists k :: 0 <= k < |es| && MarksAt(c, es, k)
  }

  lemma MarksInPrefix(c: CardState, es: seq<Event>, n: nat, k: nat)
    requires CardOk(c) && k < n <= |es|
    ensures MarksAt(c, es[..n], k) <==> MarksAt(c, es, k)
  {
    assert es[..n][..k] == es[..k];
  }

  lemma MarkedSnoc(c: CardState, es: seq<Event>)
    requires CardOk(c) && es != []
    ensures var n := |es| - 1;
            Marked(c, es) <==> Marked(c, es[..n]) || MarksAt(c, es, n)
  {
    hide MarksAt;
    var n := |es| - 1;
    forall k: nat | k < n ensures MarksAt(c, es[..n], k) <==> MarksAt(c, es, k) {
      MarksInPrefix(c, es, n, k);
    }
  }

  /** In every run: the card takes the host for Windows exactly if it did so before or some command of the run has shown
    * it; resets do not matter. */
  lemma {:induction false} WindowsIsRemembered(c: CardState, es: seq<Event>)
    requires CardOk(c)
    ensures Run(c, es).windows <==> c.windows || Marked(c, es)
  {
    hide Marked, ShowsWindows, Xfr;
    if es == [] {
      NobodyMarks(c);
    } else {
      var n := |es| - 1;
      WindowsIsRemembered(c, es[..n]);
      MarkedSnoc(c, es);
      match es[n] {
        case Command(raw, env) => WindowsStep(Run(c, es[..n]), raw, env);
        case PowerCycle =>
      }
    }
  }

  lemma NobodyMarks(c: CardState)
    requires CardOk(c)
    ensures !Marked(c, [])
  {
  }

  /** So a host that has asked the MSFT applet for data it has is told three tries where the token cannot say how many
    * are left, and any other host that nothing is known. */
  lemma WindowsIsToldThree(c: CardState, es: seq<Event>, raw: seq<byte>, env: Env)
    requires CardOk(c) && !c.windows && Decode(raw).Ok? && |raw| >= 4 && Ordinary(raw[0])
    requires raw[1] == 0x20 && raw[2] == 0x00 && raw[3] == 0x00 && Carries(raw, [])
    requires !env.loggedIn && env.loginCount == -1
    ensures var d := Run(c, es);
            if Marked(c, es) then
              Bare(Xfr(d, raw, env), 0x63, 0xc3, d.(pending := None))
            else Bare(Xfr(d, raw, env), 0x6a, 0x88, d.(pending := None))
  {
    hide Xfr, Decode, Marked, Run, VmSelect, VmGetResponse;
    WindowsIsRemembered(c, es);
    var d := Run(c, es);
    Routed(d, raw, env);
    PassedOn(d, raw, env);
  }
}
