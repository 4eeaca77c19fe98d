/** Moving data out of the card: responses fetched piece by piece with GET RESPONSE, and container files
  * read in chunks with READ BUFFER. Everything is stated about the raw bytes a host sends. */
module Transfers {
  import opened Bytes
  import opened SimpleTlv
  import opened Apdus
  import opened Card
  import opened CardSteps
  import CacFile

  /** A GET RESPONSE: its Le, and what the code outside the model answers meanwhile. */
  datatype Fetch = Fetch(le: nat, env: Env)

  predicate FetchesOk(l: seq<Fetch>) {
    forall i :: 0 <= i < |l| ==> 1 <= l[i].le <= 65536
  }

  function Total(l: seq<Fetch>): nat {
    if l == [] then 0 else l[0].le + Total(l[1..])
  }

  /** A class byte of an ISO command without secure messaging. */
  predicate PlainClass(cla: byte) {
    GenTypeOf(cla) == Iso && SecureMessaging(cla) == 0
  }

  function GetResponseCommand(cla: byte, le: nat): seq<byte>
    requires le <= 65536
  {
    Command(cla, 0xc0, 0x00, 0x00, FormFor([], le, le > 256))
  }

  /** What can still be fetched. */
  function Waiting(c: CardState): seq<byte>
    requires CardOk(c)
  {
    if c.pending.None? then [] else c.pending.value.Rest()
  }

  /** The answer section 7.1 of ISO/IEC 7816-4:1995 asks for when `rest` is waiting: the next Le bytes, with
    * 61 and the bytes still to come, or 9000 when these are the last. */
  function Served(rest: seq<byte>, le: nat): Response {
    if rest == [] then MakeResponse(0x6a88)
    else
      var n := Min(le, |rest|);
      var left := |rest| - n;
      if left == 0 then Response(rest, 0x90, 0x00) else Response(rest[..n], 0x61, Min(256, left) % 0x100)
  }

  /** Whatever is selected, GET RESPONSE reaches the card's own handler. */
  lemma GetResponseReachesTheCard(c: CardState, cla: byte, le: nat, env: Env)
    requires CardOk(c) && PlainClass(cla) && le <= 65536
    ensures var raw := GetResponseCommand(cla, le);
            Decode(raw).Ok? && Decode(raw).apdu.le == le && Xfr(c, raw, env) == VmGetResponse(c, Decode(raw).apdu)
  {
    var raw := GetResponseCommand(cla, le);
    DecodeCommand(cla, 0xc0, 0x00, 0x00, FormFor([], le, le > 256));
    DecodedChannel(raw);
    AppletSound(c, Decode(raw).apdu, env);
  }

  /** What that handler does. The answer never exceeds Le, so it is never itself put aside. */
  lemma GetResponseEffect(c: CardState, a: Apdu)
    requires CardOk(c)
    ensures var o := VmGetResponse(c, a);
            && o.response == Some(Served(Waiting(c), a.le))
            && CardOk(o.card) && o.card.(pending := None) == c.(pending := None)
            && Waiting(o.card) == Waiting(c)[Min(a.le, |Waiting(c)|)..]
  {
    if c.pending.Some? {
      var p := c.pending.value;
      var n := Min(a.le, p.len);
      assert p.buffer[p.current..p.current + n] == p.Rest()[..n];
      assert p.buffer[p.current + n..] == p.Rest()[n..];
      assert p.Rest()[..|p.Rest()|] == p.Rest();
    }
  }

  lemma GetResponseStep(c: CardState, cla: byte, le: nat, env: Env)
    requires CardOk(c) && PlainClass(cla) && le <= 65536
    ensures var o := Xfr(c, GetResponseCommand(cla, le), env);
            && o.response == Some(Served(Waiting(c), le))
            && CardOk(o.card) && o.card.(pending := None) == c.(pending := None)
            && Waiting(o.card) == Waiting(c)[Min(le, |Waiting(c)|)..]
  {
    GetResponseReachesTheCard(c, cla, le, env);
    GetResponseEffect(c, Decode(GetResponseCommand(cla, le)).apdu);
  }

  /** With Le at least one, every GET RESPONSE makes progress; without an Le it repeats the announcement. */
  lemma GetResponseProgress(c: CardState, cla: byte, le: nat, env: Env)
    requires CardOk(c) && PlainClass(cla) && le <= 65536 && c.pending.Some?
    ensures var d := Xfr(c, GetResponseCommand(cla, le), env).card;
            CardOk(d) && (le > 0 <==> |Waiting(d)| < |Waiting(c)|)
  {
    GetResponseStep(c, cla, le, env);
  }

  /** A row of GET RESPONSE commands: the card behind them and the answers. */
  datatype Drained = Drained(card: CardState, answers: seq<Response>)

  function Drain(c: CardState, cla: byte, l: seq<Fetch>): (d: Drained)
    requires CardOk(c) && FetchesOk(l)
    ensures CardOk(d.card)
    decreases l
  {
    if l == [] then Drained(c, [])
    else
      var raw := GetResponseCommand(cla, l[0].le);
      XfrSound(c, raw, l[0].env);
      var o := Xfr(c, raw, l[0].env);
      var rest := Drain(o.card, cla, l[1..]);
      Drained(rest.card, [o.response.value] + rest.answers)
  }

  function ServedAll(rest: seq<byte>, l: seq<Fetch>): seq<Response> {
    if l == [] then [] else [Served(rest, l[0].le)] + ServedAll(rest[Min(l[0].le, |rest|)..], l[1..])
  }

  function Gather(answers: seq<Response>): seq<byte> {
    if answers == [] then [] else answers[0].data + Gather(answers[1..])
  }

  /** The first command of a row: its answer, and the card the others meet. */
  lemma DrainStep(c: CardState, cla: byte, l: seq<Fetch>) returns (next: CardState)
    requires CardOk(c) && PlainClass(cla) && FetchesOk(l) && l != []
    ensures CardOk(next) && next.(pending := None) == c.(pending := None)
    ensures Waiting(next) == Waiting(c)[Min(l[0].le, |Waiting(c)|)..]
    ensures var rest := Drain(next, cla, l[1..]);
            Drain(c, cla, l) == Drained(rest.card, [Served(Waiting(c), l[0].le)] + rest.answers)
  {
    GetResponseStep(c, cla, l[0].le, l[0].env);
    next := Xfr(c, GetResponseCommand(cla, l[0].le), l[0].env).card;
  }

  /** What a row should give: the answers, and the card with what is left of the waiting bytes. */
  ghost predicate IsServed(d: Drained, c: CardState, waiting: seq<byte>, l: seq<Fetch>) {
    && CardOk(d.card)
    && d.answers == ServedAll(waiting, l)
    && d.card.(pending := None) == c.(pending := None)
    && Waiting(d.card) == waiting[Min(Total(l), |waiting|)..]
  }

  lemma ServedStep(rest: Drained, c: CardState, next: CardState, waiting: seq<byte>, l: seq<Fetch>)
    requires l != [] && next.(pending := None) == c.(pending := None)
    requires IsServed(rest, next, waiting[Min(l[0].le, |waiting|)..], l[1..])
    ensures IsServed(Drained(rest.card, [Served(waiting, l[0].le)] + rest.answers), c, waiting, l)
  {
    hide CardOk, Served;
    DropTwice(waiting, l[0].le, Total(l[1..]));
  }

  /** Every answer of the row is the one the standard asks for, and nothing but the waiting bytes changes. */
  lemma {:induction false} ResponseChaining(c: CardState, cla: byte, l: seq<Fetch>)
    requires CardOk(c) && PlainClass(cla) && FetchesOk(l)
    ensures IsServed(Drain(c, cla, l), c, Waiting(c), l)
    decreases l
  {
    hide IsServed, Drain, Waiting, Served, ServedAll, CardOk, PlainClass;
    if l == [] {
      NothingFetched(c, cla);
    } else {
      var next := DrainStep(c, cla, l);
      ResponseChaining(next, cla, l[1..]);
      ServedStep(Drain(next, cla, l[1..]), c, next, Waiting(c), l);
    }
  }

  lemma NothingFetched(c: CardState, cla: byte)
    requires CardOk(c)
    ensures IsServed(Drain(c, cla, []), c, Waiting(c), [])
  {
  }

  /** Put together, the answers are the waiting bytes in order, as far as the Le values reach. */
  lemma {:induction false} ServedData(rest: seq<byte>, l: seq<Fetch>)
    ensures Gather(ServedAll(rest, l)) == rest[..Min(Total(l), |rest|)]
  {
    if l != [] {
      ServedData(rest[Min(l[0].le, |rest|)..], l[1..]);
      DropTwice(rest, l[0].le, Total(l[1..]));
    }
  }

  lemma DropTwice(s: seq<byte>, n: nat, m: nat)
    ensures var t := s[Min(n, |s|)..];
            && t[Min(m, |t|)..] == s[Min(n + m, |s|)..]
            && s[..Min(n, |s|)] + t[..Min(m, |t|)] == s[..Min(n + m, |s|)]
  {
  }

  /** Enough GET RESPONSE commands fetch all of what is pending. */
  lemma FetchAll(c: CardState, cla: byte, data: seq<byte>, l: seq<Fetch>)
    requires CardOk(c) && PlainClass(cla) && c.pending == Some(Pending(data, 0, |data|))
    requires FetchesOk(l) && Total(l) >= |data|
    ensures Gather(Drain(c, cla, l).answers) == data && Drain(c, cla, l).card == c.(pending := None)
  {
    var d := Drain(c, cla, l);
    assert Waiting(c) == data;
    ResponseChaining(c, cla, l);
    ServedData(data, l);
    AllFetched(d, c, data, l);
  }

  lemma AllFetched(d: Drained, c: CardState, data: seq<byte>, l: seq<Fetch>)
    requires IsServed(d, c, data, l) && Total(l) >= |data|
    ensures data[..Min(Total(l), |data|)] == data && d.card == c.(pending := None)
  {
    assert Waiting(d.card) == [];
  }

  /** Send a command; take the data that came back, or fetch it when it is announced. */
  function Ask(c: CardState, cla: byte, raw: seq<byte>, l: seq<Fetch>, env: Env): (r: (CardState, seq<byte>))
    requires CardOk(c) && FetchesOk(l)
    ensures CardOk(r.0)
  {
    XfrSound(c, raw, env);
    var o := Xfr(c, raw, env);
    if o.response.value.sw1 == 0x61 then
      var d := Drain(o.card, cla, l);
      (d.card, Gather(d.answers))
    else (o.card, o.response.value.data)
  }

  /** However the card answers a command that sends `data`, the host ends up with it. */
  lemma AskGets(c: CardState, cla: byte, raw: seq<byte>, l: seq<Fetch>, env: Env, d: CardState, data: seq<byte>,
                le: nat)
    requires CardOk(c) && PlainClass(cla) && FetchesOk(l) && CardOk(d) && d.pending.None?
    requires Xfr(c, raw, env).card == SendBytes(d, data, le, 0x90, 0x00).card
    requires Xfr(c, raw, env).response == SendBytes(d, data, le, 0x90, 0x00).response
    requires Total(l) >= |data|
    ensures Ask(c, cla, raw, l, env) == (d, data)
  {
    if |data| > le {
      XfrSound(c, raw, env);
      FetchAll(Xfr(c, raw, env).card, cla, data, l);
      NoneDropped(d);
    }
  }

  lemma NoneDropped(c: CardState)
    requires c.pending.None?
    ensures c.(pending := None) == c
  {
  }

  // ---- Reading a container file ----

  /** A READ BUFFER for `size` bytes with the given Le, short or extended, and the GET RESPONSE commands that
    * follow if the card announces data instead of sending it. */
  datatype Chunk = Chunk(size: nat, le: nat, extended: bool, env: Env, fetches: seq<Fetch>) {
    predicate Ok() {
      && size <= 255 && le <= (if extended then 65536 else 256)
      && FetchesOk(fetches) && Total(fetches) >= size
    }
  }

  const TAG_FILE: byte := 0x01
  const VALUE_FILE: byte := 0x02

  function ReadCommand(cla: byte, which: byte, offset: nat, k: Chunk): seq<byte>
    requires offset < 0x1_0000 && k.Ok()
  {
    Command(cla, 0x52, offset / 0x100, offset % 0x100, FormFor([which, k.size], k.le, k.extended))
  }

  function ReadChunk(c: CardState, cla: byte, which: byte, offset: nat, k: Chunk): (r: (CardState, seq<byte>))
    requires CardOk(c) && k.Ok() && offset < 0x1_0000
    ensures CardOk(r.0)
  {
    Ask(c, cla, ReadCommand(cla, which, offset, k), k.fetches, k.env)
  }

  predicate Container(a: Applet) {
    a.kind.Plain? || a.kind.Pki? || a.kind.Passthrough?
  }

  /** Reading does not change the applet: it has both files, or would fetch just what it has. */
  predicate Settled(a: Applet, env: Env) {
    a.kind.Passthrough? && (a.tagFile.None? || a.valFile.None?) ==> FetchedFiles(a, env.stored) == a
  }

  /** The file a READ BUFFER on this channel reads. A file that could not be made reads as an empty one. */
  predicate Selected(c: CardState, cla: byte, i: nat, which: byte, file: seq<byte>) {
    && CardOk(c) && PlainClass(cla) && (which == TAG_FILE || which == VALUE_FILE)
    && c.current[Channel(cla)] == Some(i) && Container(c.applets[i])
    && file == FileBytes(if which == VALUE_FILE then c.applets[i].valFile else c.applets[i].tagFile)
  }

  /** The bytes of a chunk, cut short at the end of the file. */
  function Slice(file: seq<byte>, offset: nat, size: nat): seq<byte> {
    if offset > |file| then [] else file[offset..offset + Min(size, |file| - offset)]
  }

  lemma ReadReached(c: CardState, cla: byte, i: nat, which: byte, file: seq<byte>, offset: nat, k: Chunk)
    requires Selected(c, cla, i, which, file) && offset < 0x1_0000 && k.Ok() && Settled(c.applets[i], k.env)
    ensures var raw := ReadCommand(cla, which, offset, k);
            && Decode(raw).Ok?
            && var a := Decode(raw).apdu;
               FromBe16(a.p1, a.p2) == offset && a.body == [which, k.size] && a.le == k.le
               && Xfr(c, raw, k.env) == ReadBuffer(c.(pending := None), c.applets[i], a)
  {
    hide Decode, Command;
    DecodeCommand(cla, 0x52, offset / 0x100, offset % 0x100, FormFor([which, k.size], k.le, k.extended));
    var raw := ReadCommand(cla, which, offset, k);
    DecodedChannel(raw);
    var d := DropPending(c, Decode(raw).apdu);
    assert d.applets[i := d.applets[i]] == d.applets;
    assert AppletProcess(d, Decode(raw).apdu, k.env) == ReadBuffer(d, d.applets[i], Decode(raw).apdu);
  }

  lemma ReadStep(c: CardState, cla: byte, i: nat, which: byte, file: seq<byte>, offset: nat, k: Chunk)
    requires Selected(c, cla, i, which, file) && offset < 0x1_0000 && k.Ok() && Settled(c.applets[i], k.env)
    ensures var d := c.(pending := None);
            Xfr(c, ReadCommand(cla, which, offset, k), k.env)
            == if offset > |file| then Reply(d, 0x6a86)
               else SendBytes(d, Slice(file, offset, k.size), k.le, 0x90, 0x00)
  {
    ReadReached(c, cla, i, which, file, offset, k);
  }

  /** However a chunk is answered, the host ends up with its bytes and the card as it was. */
  lemma ChunkIsRead(c: CardState, cla: byte, i: nat, which: byte, file: seq<byte>, offset: nat, k: Chunk)
    requires Selected(c, cla, i, which, file) && offset < 0x1_0000 && k.Ok() && Settled(c.applets[i], k.env)
    ensures ReadChunk(c, cla, which, offset, k) == (c.(pending := None), Slice(file, offset, k.size))
  {
    ReadStep(c, cla, i, which, file, offset, k);
    var d := c.(pending := None);
    if offset <= |file| {
      AskGets(c, cla, ReadCommand(cla, which, offset, k), k.fetches, k.env, d, Slice(file, offset, k.size), k.le);
    }
  }

  function Sizes(plan: seq<Chunk>): nat {
    if plan == [] then 0 else plan[0].size + Sizes(plan[1..])
  }

  /** Every chunk is well formed and every offset the host sends fits P1 and P2. */
  predicate PlanOk(plan: seq<Chunk>, offset: nat) {
    plan == [] || (plan[0].Ok() && offset < 0x1_0000 && PlanOk(plan[1..], offset + plan[0].size))
  }

  predicate AllSettled(a: Applet, plan: seq<Chunk>) {
    forall k :: 0 <= k < |plan| ==> Settled(a, plan[k].env)
  }

  /** Read chunk after chunk. */
  function ReadAll(c: CardState, cla: byte, which: byte, offset: nat, plan: seq<Chunk>): (r: (CardState, seq<byte>))
    requires CardOk(c) && PlanOk(plan, offset)
    ensures CardOk(r.0)
    decreases plan
  {
    hide CardOk, ReadChunk;
    if plan == [] then (c, [])
    else
      var (d, data) := ReadChunk(c, cla, which, offset, plan[0]);
      var (e, rest) := ReadAll(d, cla, which, offset + plan[0].size, plan[1..]);
      (e, data + rest)
  }

  lemma SliceTwice(file: seq<byte>, offset: nat, n: nat, m: nat)
    ensures Slice(file, offset, n) + Slice(file, offset + n, m) == Slice(file, offset, n + m)
  {
    hide Slice;
    if offset + n > |file| {
      PastTheEnd(file, offset, n, m);
    } else {
      InsideTheFile(file, offset, n, m);
      Adjacent(file, offset, offset + n, offset + n + Min(m, |file| - offset - n));
    }
  }

  lemma InsideTheFile(file: seq<byte>, offset: nat, n: nat, m: nat)
    requires offset + n <= |file|
    ensures var a, b := offset + n, offset + n + Min(m, |file| - offset - n);
            && Slice(file, offset, n) == file[offset..a] && Slice(file, a, m) == file[a..b]
            && Slice(file, offset, n + m) == file[offset..b]
  {
    assert Min(n + m, |file| - offset) == n + Min(m, |file| - offset - n);
  }

  lemma PastTheEnd(file: seq<byte>, offset: nat, n: nat, m: nat)
    requires offset + n > |file|
    ensures Slice(file, offset + n, m) == [] && Slice(file, offset, n) == Slice(file, offset, n + m)
  {
  }

  lemma Adjacent(s: seq<byte>, a: nat, b: nat, c: nat)
    requires a <= b <= c <= |s|
    ensures s[a..b] + s[b..c] == s[a..c]
  {
  }

  /** The first chunk of a plan gives its bytes and leaves the card as it was. */
  lemma FirstChunk(c: CardState, cla: byte, i: nat, which: byte, file: seq<byte>, offset: nat, plan: seq<Chunk>)
    requires Selected(c, cla, i, which, file) && PlanOk(plan, offset) && c.pending.None? && plan != []
    requires Settled(c.applets[i], plan[0].env)
    ensures var r := ReadAll(c, cla, which, offset + plan[0].size, plan[1..]);
            ReadAll(c, cla, which, offset, plan) == (r.0, Slice(file, offset, plan[0].size) + r.1)
  {
    ChunkIsRead(c, cla, i, which, file, offset, plan[0]);
    NoneDropped(c);
  }

  lemma NoChunks(c: CardState, cla: byte, i: nat, which: byte, file: seq<byte>, offset: nat)
    requires Selected(c, cla, i, which, file)
    ensures ReadAll(c, cla, which, offset, []) == (c, Slice(file, offset, 0))
  {
    assert Slice(file, offset, 0) == [];
  }

  /** A plan reads the file from its offset on, as far as its sizes add up, whatever the sizes and Le values;
    * reading past the end adds nothing. */
  lemma {:induction false} FileIsRead(c: CardState, cla: byte, i: nat, which: byte, file: seq<byte>, offset: nat,
                                      plan: seq<Chunk>)
    requires Selected(c, cla, i, which, file) && PlanOk(plan, offset) && c.pending.None?
    requires AllSettled(c.applets[i], plan)
    ensures ReadAll(c, cla, which, offset, plan) == (c, Slice(file, offset, Sizes(plan)))
    decreases plan
  {
    hide ReadChunk, Selected, ReadAll, Slice, Settled;
    if plan == [] {
      NoChunks(c, cla, i, which, file, offset);
    } else {
      FileIsRead(c, cla, i, which, file, offset + plan[0].size, plan[1..]);
      FirstChunk(c, cla, i, which, file, offset, plan);
      SliceTwice(file, offset, plan[0].size, Sizes(plan[1..]));
    }
  }

  /** Read the TL file, then the V file, and put them together. */
  function ReadBoth(c: CardState, cla: byte, tagPlan: seq<Chunk>, valPlan: seq<Chunk>)
    : (r: (CardState, Option<seq<Member>>))
    requires CardOk(c) && PlanOk(tagPlan, 0) && PlanOk(valPlan, 0)
    ensures CardOk(r.0)
  {
    var (d, tl) := ReadAll(c, cla, TAG_FILE, 0, tagPlan);
    var (e, v) := ReadAll(d, cla, VALUE_FILE, 0, valPlan);
    (e, CacFile.ReadFiles(tl, v))
  }

  lemma BothAreRead(c: CardState, cla: byte, i: nat, tl: seq<byte>, v: seq<byte>, tagPlan: seq<Chunk>,
                    valPlan: seq<Chunk>)
    requires Selected(c, cla, i, TAG_FILE, tl) && Selected(c, cla, i, VALUE_FILE, v) && c.pending.None?
    requires PlanOk(tagPlan, 0) && Sizes(tagPlan) >= |tl| && AllSettled(c.applets[i], tagPlan)
    requires PlanOk(valPlan, 0) && Sizes(valPlan) >= |v| && AllSettled(c.applets[i], valPlan)
    ensures ReadBoth(c, cla, tagPlan, valPlan) == (c, CacFile.ReadFiles(tl, v))
  {
    hide ReadAll, CacFile.ReadFiles;
    FileIsRead(c, cla, i, TAG_FILE, tl, 0, tagPlan);
    FileIsRead(c, cla, i, VALUE_FILE, v, 0, valPlan);
    WholeSlice(tl, Sizes(tagPlan));
    WholeSlice(v, Sizes(valPlan));
  }

  lemma WholeSlice(file: seq<byte>, n: nat)
    requires n >= |file|
    ensures Slice(file, 0, n) == file
  {
  }

  /** Files built from a list, read in any chunks, cut by the TL file: the host has the members back. */
  lemma EndToEnd(c: CardState, cla: byte, i: nat, tlv: seq<Member>, tagPlan: seq<Chunk>, valPlan: seq<Chunk>)
    requires CardOk(c) && c.pending.None? && i < |c.applets| && Flat(tlv) && Encodable(tlv, TL)
    requires 1 <= |Encode(tlv, TL)| <= 0xffff && 1 <= |Encode(tlv, Value)| <= 0xffff
    requires c.applets[i].tagFile == Some(CacFile.FileOf(tlv, TL))
    requires c.applets[i].valFile == Some(CacFile.FileOf(tlv, Value))
    requires Selected(c, cla, i, TAG_FILE, CacFile.FileOf(tlv, TL))
    requires PlanOk(tagPlan, 0) && Sizes(tagPlan) >= |Encode(tlv, TL)| + 2
    requires PlanOk(valPlan, 0) && Sizes(valPlan) >= |Encode(tlv, Value)| + 2
    ensures ReadBoth(c, cla, tagPlan, valPlan) == (c, Some(Kept(tlv)))
  {
    BothAreRead(c, cla, i, CacFile.FileOf(tlv, TL), CacFile.FileOf(tlv, Value), tagPlan, valPlan);
    CacFile.FilesRoundTrip(tlv);
  }

  // ---- Passthrough applets ----

  /** The state of a card whose passthrough applet `i` has just fetched the object behind it. */
  function Fetched(c: CardState, i: nat, stored: Option<seq<byte>>): CardState
    requires i < |c.applets|
  {
    c.(applets := c.applets[i := FetchedFiles(c.applets[i], stored)])
  }

  predicate PassthroughSelected(c: CardState, cla: byte, i: nat) {
    && CardOk(c) && PlainClass(cla) && c.current[Channel(cla)] == Some(i) && c.applets[i].kind.Passthrough?
    && (c.applets[i].tagFile.None? || c.applets[i].valFile.None?)
  }

  /** What has been fetched once is settled while the object behind it stays the same. */
  lemma FetchedIsSettled(a: Applet, env: Env)
    requires a.kind.Passthrough?
    ensures Settled(FetchedFiles(a, env.stored), env)
  {
  }

  /** A passthrough applet without files fetches them on the first READ BUFFER, which then proceeds as if they
    * had been there. */
  lemma FirstReadFetches(c: CardState, cla: byte, i: nat, which: byte, offset: nat, k: Chunk)
    requires PassthroughSelected(c, cla, i) && k.Ok() && offset < 0x1_0000
    ensures CardOk(Fetched(c, i, k.env.stored))
    ensures ReadChunk(c, cla, which, offset, k) == ReadChunk(Fetched(c, i, k.env.stored), cla, which, offset, k)
  {
    ReplaceOk(c, i, FetchedFiles(c.applets[i], k.env.stored));
    DecodeCommand(cla, 0x52, offset / 0x100, offset % 0x100, FormFor([which, k.size], k.le, k.extended));
    var raw := ReadCommand(cla, which, offset, k);
    DecodedChannel(raw);
    FetchThenRead(c, i, Decode(raw).apdu, raw, k.env);
  }

  lemma FetchThenRead(c: CardState, i: nat, a: Apdu, raw: seq<byte>, env: Env)
    requires CardOk(c) && a.channel < MAX_CHANNEL && Decode(raw) == Ok(a)
    requires c.current[a.channel] == Some(i) && c.applets[i].kind.Passthrough? && a.ins == 0x52
    requires c.applets[i].tagFile.None? || c.applets[i].valFile.None?
    requires CardOk(Fetched(c, i, env.stored))
    ensures Xfr(c, raw, env) == Xfr(Fetched(c, i, env.stored), raw, env)
  {
    var d := DropPending(c, a);
    var e := Fetched(d, i, env.stored);
    FetchedIsSettled(d.applets[i], env);
    assert e == DropPending(Fetched(c, i, env.stored), a);
    assert e.applets[i := e.applets[i]] == e.applets;
    assert AppletProcess(d, a, env) == CommonRead(e, i, a);
    assert AppletProcess(e, a, env) == CommonRead(e, i, a);
    ReadSound(e, i, a);
  }

  /** The host's plans read while the object behind the applet is `stored`. */
  predicate SameObject(plan: seq<Chunk>, stored: Option<seq<byte>>) {
    forall k :: 0 <= k < |plan| ==> plan[k].env.stored == stored
  }

  /** Whatever is behind a passthrough applet, the host gets the two files made from it. */
  lemma PassthroughIsRead(c: CardState, cla: byte, i: nat, stored: Option<seq<byte>>, tagPlan: seq<Chunk>,
                          valPlan: seq<Chunk>)
    requires PassthroughSelected(c, cla, i) && c.pending.None? && tagPlan != []
    requires SameObject(tagPlan, stored) && SameObject(valPlan, stored)
    requires PlanOk(tagPlan, 0) && Sizes(tagPlan) >= |FileBytes(FetchedFiles(c.applets[i], stored).tagFile)|
    requires PlanOk(valPlan, 0) && Sizes(valPlan) >= |FileBytes(FetchedFiles(c.applets[i], stored).valFile)|
    ensures var a := FetchedFiles(c.applets[i], stored);
            ReadBoth(c, cla, tagPlan, valPlan)
            == (Fetched(c, i, stored), CacFile.ReadFiles(FileBytes(a.tagFile), FileBytes(a.valFile)))
  {
    var d := Fetched(c, i, stored);
    var a := d.applets[i];
    FirstReadFetches(c, cla, i, TAG_FILE, 0, tagPlan[0]);
    forall env: Env | env.stored == stored ensures Settled(a, env) {
      FetchedIsSettled(c.applets[i], env);
    }
    BothAreRead(d, cla, i, FileBytes(a.tagFile), FileBytes(a.valFile), tagPlan, valPlan);
    FirstReadDecides(c, d, cla, tagPlan, valPlan);
  }

  lemma FirstReadDecides(c: CardState, d: CardState, cla: byte, tagPlan: seq<Chunk>, valPlan: seq<Chunk>)
    requires CardOk(c) && CardOk(d) && PlanOk(tagPlan, 0) && PlanOk(valPlan, 0) && tagPlan != []
    requires ReadChunk(c, cla, TAG_FILE, 0, tagPlan[0]) == ReadChunk(d, cla, TAG_FILE, 0, tagPlan[0])
    ensures ReadBoth(c, cla, tagPlan, valPlan) == ReadBoth(d, cla, tagPlan, valPlan)
  {
    hide ReadChunk, ReadAll;
    SameFirstChunk(c, d, cla, TAG_FILE, tagPlan);
  }

  /** When there is no object behind the applet, both files are two zero bytes, an empty file with a true header: read
    * in whatever chunks, the host gets just these and an empty list. */
  lemma NoObjectReadsEmpty(c: CardState, cla: byte, i: nat, tagPlan: seq<Chunk>, valPlan: seq<Chunk>)
    requires PassthroughSelected(c, cla, i) && c.pending.None? && tagPlan != []
    requires SameObject(tagPlan, None) && SameObject(valPlan, None)
    requires PlanOk(tagPlan, 0) && Sizes(tagPlan) >= 2 && PlanOk(valPlan, 0) && Sizes(valPlan) >= 2
    ensures var (d, tl) := ReadAll(c, cla, TAG_FILE, 0, tagPlan);
            var (e, v) := ReadAll(d, cla, VALUE_FILE, 0, valPlan);
            tl == [0x00, 0x00] && v == [0x00, 0x00]
    ensures ReadBoth(c, cla, tagPlan, valPlan).1 == Some([])
  {
    hide ReadAll, ReadChunk;
    var d := Fetched(c, i, None);
    var a := d.applets[i];
    FirstReadFetches(c, cla, i, TAG_FILE, 0, tagPlan[0]);
    forall env: Env | env.stored == None ensures Settled(a, env) {
      FetchedIsSettled(c.applets[i], env);
    }
    FileIsRead(d, cla, i, TAG_FILE, [0x00, 0x00], 0, tagPlan);
    FileIsRead(d, cla, i, VALUE_FILE, [0x00, 0x00], 0, valPlan);
    WholeSlice([0x00, 0x00], Sizes(tagPlan));
    WholeSlice([0x00, 0x00], Sizes(valPlan));
    SameFirstChunk(c, d, cla, TAG_FILE, tagPlan);
    EmptyFiles();
  }

  lemma EmptyFiles()
    ensures CacFile.ReadFiles([0x00, 0x00], [0x00, 0x00]) == Some([])
  {
    hide CacFile.ReadFiles;
    NothingInFiles([0x00, 0x00], [0x00, 0x00]);
  }

  lemma NothingInFiles(tl: seq<byte>, v: seq<byte>)
    requires |tl| == |v| == 2 && tl[0] == tl[1] == v[0] == v[1] == 0x00
    ensures CacFile.ReadFiles(tl, v) == Some([])
  {
    hide Cut;
    CutNothing();
    assert tl[2..] == [] && v[2..] == [];
  }

  lemma SameFirstChunk(c: CardState, d: CardState, cla: byte, which: byte, plan: seq<Chunk>)
    requires CardOk(c) && CardOk(d) && PlanOk(plan, 0) && plan != []
    requires ReadChunk(c, cla, which, 0, plan[0]) == ReadChunk(d, cla, which, 0, plan[0])
    ensures ReadAll(c, cla, which, 0, plan) == ReadAll(d, cla, which, 0, plan)
  {
    hide ReadChunk;
  }

  /** From the object on the token to the host: parsed, split into two files, read in any chunks, cut and
    * compared, every record of the object arrives, if and only if both files can be made and their headers can
    * state their lengths. */
  lemma PassthroughEndToEnd(c: CardState, cla: byte, i: nat, data: seq<byte>, tagPlan: seq<Chunk>, valPlan: seq<Chunk>)
    requires PassthroughSelected(c, cla, i) && c.pending.None? && tagPlan != []
    requires SameObject(tagPlan, Some(data)) && SameObject(valPlan, Some(data))
    requires PlanOk(tagPlan, 0) && Sizes(tagPlan) >= |Encode(Parse(data), TL)| + 2
    requires PlanOk(valPlan, 0) && Sizes(valPlan) >= |Encode(Parse(data), Value)| + 2
    ensures var (e, got) := ReadBoth(c, cla, tagPlan, valPlan);
            && e == Fetched(c, i, Some(data))
            && (got == Some(Parse(data)) <==>
                && CacFile.Creatable(Parse(data), TL) && CacFile.Creatable(Parse(data), Value)
                && |Encode(Parse(data), TL)| <= 0xffff && |Encode(Parse(data), Value)| <= 0xffff)
  {
    hide ReadBoth;
    PassthroughIsRead(c, cla, i, Some(data), tagPlan, valPlan);
    FilesOfParsed(data);
  }

  lemma FilesOfParsed(data: seq<byte>)
    ensures var tlv := Parse(data);
            var tl, v := FileBytes(FileIfAny(tlv, TL)), FileBytes(FileIfAny(tlv, Value));
            CacFile.ReadFiles(tl, v) == Some(tlv) <==>
              && CacFile.Creatable(tlv, TL) && CacFile.Creatable(tlv, Value)
              && |Encode(tlv, TL)| <= 0xffff && |Encode(tlv, Value)| <= 0xffff
  {
    var tlv := Parse(data);
    ParseIsFlat(data);
    CacFile.HeaderIsTrue(tlv, TL);
    CacFile.HeaderIsTrue(tlv, Value);
    if CacFile.Creatable(tlv, TL) && |Encode(tlv, TL)| <= 0xffff && |Encode(tlv, Value)| <= 0xffff {
      CacFile.FilesRoundTrip(tlv);
    }
  }
}
