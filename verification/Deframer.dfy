/** do_socket_read of src/vscclient.c: a resumable reader that is called whenever the socket has bytes, takes
  * as many as it wants and the socket gives, and dispatches a message once it is complete. */
module Deframer {
  import opened Bytes
  import opened Framing

  const VSC_INIT := 1
  const VSC_ERROR := 2
  const VSC_READER_REMOVE := 4
  const VSC_APDU := 7
  const VSC_FLUSH := 8
  const VSC_FLUSH_COMPLETE := 9
  const APDU_BUF_SIZE := 270
  const MAGIC: seq<byte> := [0x56, 0x53, 0x43, 0x44] // "VSCD"

  predicate Expected(kind: nat) {
    kind == VSC_APDU || kind == VSC_FLUSH || kind == VSC_ERROR || kind == VSC_INIT
  }

  /** `part` are the bytes read of the message at hand; `buffer` is the payload buffer, which keeps what
    * earlier messages left in it. */
  datatype Deframing = Deframing(part: seq<byte>, buffer: seq<byte>) {
    predicate Ok() {
      && |buffer| == APDU_BUF_SIZE
      && |part| <= HEADER_SIZE + APDU_BUF_SIZE
      && (|part| >= HEADER_SIZE ==>
            && |part| <= HEADER_SIZE + LengthIn(part)
            && part[HEADER_SIZE..] == buffer[..|part| - HEADER_SIZE])
    }

    /** How many bytes the next call asks for: first the header, then the payload. */
    function Wanted(): nat
      requires Ok()
    {
      if |part| < HEADER_SIZE then HEADER_SIZE - |part| else HEADER_SIZE + LengthIn(part) - |part|
    }

    /** The socket gives at most what was asked for. The code takes any length a header states; that no more payload
      * arrives than the buffer holds is up to the host. */
    predicate Gives(got: seq<byte>)
      requires Ok()
    {
      |got| <= Wanted() && |part + got| <= HEADER_SIZE + APDU_BUF_SIZE
    }
  }

  /** One call: whether the source stays watched, and what was dispatched. */
  datatype Step = Step(next: Deframing, keep: bool, frame: Option<Frame>)

  function Read(s: Deframing, got: seq<byte>): (r: Step)
    requires s.Ok() && s.Gives(got)
    ensures r.next.Ok()
  {
    var part := s.part + got;
    if |s.part| < HEADER_SIZE then
      // a complete header is looked at, its payload is left to the next call
      Step(Deframing(part, s.buffer), |part| == HEADER_SIZE ==> Expected(FromBe32(part[0..4])), None)
    else
      var at := |s.part| - HEADER_SIZE;
      var buffer := s.buffer[..at] + got + s.buffer[at + |got|..];
      PartKept(s, got);
      if |got| < s.Wanted() then Step(Deframing(part, buffer), true, None)
      else if FrameOf(part).kind == VSC_INIT && buffer[..4] != MAGIC then Step(Deframing(part, buffer), false, None)
      else Step(Deframing([], buffer), true, Some(FrameOf(part)))
  }

  lemma PartKept(s: Deframing, got: seq<byte>)
    requires s.Ok() && s.Gives(got) && |s.part| >= HEADER_SIZE
    ensures var part, at := s.part + got, |s.part| - HEADER_SIZE;
            && LengthIn(part) == LengthIn(s.part)
            && part[HEADER_SIZE..] == (s.buffer[..at] + got + s.buffer[at + |got|..])[..at + |got|]
            && (|got| == s.Wanted() <==> IsFrame(part))
  {
    assert (s.part + got)[8..12] == s.part[8..12];
  }

  // ---- Any sequence of calls ----

  /** What a sequence of calls has read and dispatched. */
  datatype Progress = Progress(state: Deframing, alive: bool, frames: seq<Frame>, consumed: seq<byte>)

  const START := Progress(Deframing([], seq(APDU_BUF_SIZE, i => 0)), true, [], [])

  function OneMore(p: Progress, got: seq<byte>): Progress
    requires p.state.Ok() && p.state.Gives(got)
  {
    if !p.alive then p
    else
      var r := Read(p.state, got);
      Progress(r.next, r.keep, if r.frame.Some? then p.frames + [r.frame.value] else p.frames, p.consumed + got)
  }

  /** The calls `chunks` stands for are possible one after the other. */
  predicate Possible(p: Progress, chunks: seq<seq<byte>>)
    requires p.state.Ok()
    decreases chunks
  {
    chunks == [] || (p.state.Gives(chunks[0]) && Possible(OneMore(p, chunks[0]), chunks[1..]))
  }

  function Run(p: Progress, chunks: seq<seq<byte>>): (q: Progress)
    requires p.state.Ok() && Possible(p, chunks)
    ensures q.state.Ok()
    decreases chunks
  {
    if chunks == [] then p else Run(OneMore(p, chunks[0]), chunks[1..])
  }

  function Concat(chunks: seq<seq<byte>>): seq<byte> {
    if chunks == [] then [] else chunks[0] + Concat(chunks[1..])
  }

  /** The message that is complete but not dispatched, if there is one. */
  function Behind(part: seq<byte>): seq<Frame> {
    if IsFrame(part) then [FrameOf(part)] else []
  }

  /** Everything read is either dispatched or at hand. */
  ghost predicate Accounted(p: Progress) {
    && p.state.Ok() && AllOk(p.frames)
    && p.consumed == WireAll(p.frames) + p.state.part
    && (p.alive ==> p.state.Wanted() > 0 || LengthIn(p.state.part) == 0)
    && (p.alive && |p.state.part| >= HEADER_SIZE ==> Expected(FromBe32(p.state.part[0..4])))
  }

  lemma HeaderIsAccounted(p: Progress, got: seq<byte>)
    requires Accounted(p) && p.state.Gives(got) && p.alive && |p.state.part| < HEADER_SIZE
    ensures Accounted(OneMore(p, got))
  {
    Assoc(WireAll(p.frames), p.state.part, got);
  }

  lemma PayloadIsAccounted(p: Progress, got: seq<byte>)
    requires Accounted(p) && p.state.Gives(got) && p.alive && |p.state.part| >= HEADER_SIZE
    ensures Accounted(OneMore(p, got))
  {
    var part := p.state.part + got;
    Assoc(WireAll(p.frames), p.state.part, got);
    PartKept(p.state, got);
    assert part[0..4] == p.state.part[0..4];
    if IsFrame(part) {
      FrameIsAppended(p.frames, part);
    }
  }

  lemma FrameIsAppended(fs: seq<Frame>, part: seq<byte>)
    requires IsFrame(part) && AllOk(fs)
    ensures WireAll(fs + [FrameOf(part)]) == WireAll(fs) + part && AllOk(fs + [FrameOf(part)])
    ensures WireAll(fs) + part + [] == WireAll(fs) + part
  {
    WireOfFrame(part);
    WireSnoc(fs, FrameOf(part));
  }

  lemma StepIsAccounted(p: Progress, got: seq<byte>)
    requires Accounted(p) && p.state.Gives(got)
    ensures Accounted(OneMore(p, got))
  {
    if p.alive {
      if |p.state.part| < HEADER_SIZE {
        HeaderIsAccounted(p, got);
      } else {
        PayloadIsAccounted(p, got);
      }
    }
  }

  lemma {:induction false} RunIsAccounted(p: Progress, chunks: seq<seq<byte>>)
    requires Accounted(p) && Possible(p, chunks)
    ensures Accounted(Run(p, chunks))
    ensures Run(p, chunks).alive ==> p.alive && Run(p, chunks).consumed == p.consumed + Concat(chunks)
    ensures !p.alive ==> Run(p, chunks) == p
    decreases chunks
  {
    if chunks == [] {
      assert p.consumed + [] == p.consumed;
    } else {
      StepIsAccounted(p, chunks[0]);
      RunIsAccounted(OneMore(p, chunks[0]), chunks[1..]);
      Assoc(p.consumed, chunks[0], Concat(chunks[1..]));
    }
  }

  /** However the stream is cut into reads, what has been dispatched is the split of the bytes read so far at the
    * lengths of their headers, up to at most one message that is complete and waits; while the reader is alive
    * that can only be one without a payload. */
  lemma DispatchIsTheSplit(chunks: seq<seq<byte>>)
    requires Possible(START, chunks)
    ensures var p := Run(START, chunks);
            && SplitOf(p.consumed).frames == p.frames + Behind(p.state.part)
            && |Behind(p.state.part)| <= 1
            && (p.alive ==> p.consumed == Concat(chunks))
            && (p.alive && Behind(p.state.part) != [] ==> Behind(p.state.part)[0].payload == [])
  {
    StartIsAccounted();
    RunIsAccounted(START, chunks);
    var p := Run(START, chunks);
    var part := p.state.part;
    SplitInvertsWire(p.frames, part);
    SplitOfPart(part);
    if p.alive {
      assert [] + Concat(chunks) == Concat(chunks);
    }
  }

  lemma SplitOfPart(part: seq<byte>)
    requires |part| < HEADER_SIZE || |part| <= HEADER_SIZE + LengthIn(part)
    ensures SplitOf(part).frames == Behind(part)
  {
    if HasFrame(part) {
      assert part[..|part|] == part && part[|part|..] == [];
      assert SplitOf(part) == Split([FrameOf(part)] + SplitOf([]).frames, SplitOf([]).rest);
    }
  }

  lemma StartIsAccounted()
    ensures Accounted(START)
  {
  }

  /** Two ways of cutting the same stream dispatch the same messages, except that one may be ahead by the last. */
  lemma ChunkingDoesNotMatter(a: seq<seq<byte>>, b: seq<seq<byte>>)
    requires Possible(START, a) && Possible(START, b) && Concat(a) == Concat(b)
    requires Run(START, a).alive && Run(START, b).alive
    ensures var p, q := Run(START, a), Run(START, b);
            p.frames + Behind(p.state.part) == q.frames + Behind(q.state.part)
  {
    DispatchIsTheSplit(a);
    DispatchIsTheSplit(b);
  }

  /** A message that waits needs one more call, which reads nothing. */
  lemma NextCallCatchesUp(s: Deframing)
    requires s.Ok() && Behind(s.part) != []
    ensures s.Wanted() == 0
    ensures Read(s, []).keep ==> Read(s, []).frame == Some(Behind(s.part)[0]) && Read(s, []).next.part == []
    ensures Read(s, []).keep <==> Behind(s.part)[0].kind != VSC_INIT || s.buffer[..4] == MAGIC
  {
    var at := |s.part| - HEADER_SIZE;
    assert s.part + [] == s.part;
    assert s.buffer[..at] + [] + s.buffer[at..] == s.buffer;
  }

  // ---- When the client goes on ----

  /** The kinds the client takes: Init, Error, APDU and Flush. */
  predicate Welcome(kind: nat) {
    kind == 1 || kind == 2 || kind == 7 || kind == 8
  }

  /** One call ends the connection exactly when it completes a header of another kind, or an Init message that does not
    * leave "VSCD" at the start of the buffer. */
  lemma CallKeepsAlive(s: Deframing, got: seq<byte>)
    requires s.Ok() && s.Gives(got)
    ensures var part, r := s.part + got, Read(s, got);
            && (|s.part| < 12 && |part| == 12 ==> (r.keep <==> Welcome(FromBe32(part[0..4]))))
            && (|part| < 12 ==> r.keep)
            && (12 <= |s.part| && |got| < s.Wanted() ==> r.keep)
            && (12 <= |s.part| && |got| == s.Wanted() ==>
                  (r.keep <==> FromBe32(part[0..4]) == 1 ==> r.next.buffer[..4] == [0x56, 0x53, 0x43, 0x44]))
  {
    if |s.part| >= HEADER_SIZE {
      PartKept(s, got);
      assert (s.part + got)[0..4] == s.part[0..4];
    }
  }

  /** What a run has taken: every dispatched message is welcome, and every Init left "VSCD" behind. */
  ghost predicate Admitted(p: Progress) {
    && Keeps(p)
    && (forall k :: 0 <= k < |p.frames| ==> Admits(p.frames, k))
    && (p.alive && |p.state.part| >= 12 ==> Welcome(FromBe32(p.state.part[0..4])))
    && (!p.alive ==> Offends(p.state))
  }

  /** Message `k` is of a kind the client takes, and if it is an Init it leaves "VSCD" at the start of the buffer. */
  ghost predicate Admits(frames: seq<Frame>, k: nat)
    requires k < |frames|
  {
    Welcome(frames[k].kind) && (frames[k].kind == 1 ==> FirstFour(frames[..k + 1]) == [0x56, 0x53, 0x43, 0x44])
  }

  /** The message at hand is what ended the connection. */
  ghost predicate Offends(s: Deframing) {
    && s.Ok() && |s.part| >= 12
    && (!Welcome(FromBe32(s.part[0..4]))
        || (IsFrame(s.part) && FromBe32(s.part[0..4]) == 1 && s.buffer[..4] != [0x56, 0x53, 0x43, 0x44]))
  }

  lemma StepAdmits(p: Progress, got: seq<byte>)
    requires Admitted(p) && p.state.Gives(got)
    ensures Admitted(OneMore(p, got))
  {
    if p.alive {
      StepKeeps(p, got);
      CallKeepsAlive(p.state, got);
      var s, q := p.state, OneMore(p, got);
      var part := s.part + got;
      if |s.part| >= 12 {
        PartKept(s, got);
        assert part[0..4] == s.part[0..4];
        if q.frames != p.frames {
          NewFrameAdmitted(p, got);
        }
      }
    }
  }

  lemma NewFrameAdmitted(p: Progress, got: seq<byte>)
    requires Admitted(p) && p.alive && p.state.Gives(got) && |p.state.part| >= 12 && Read(p.state, got).frame.Some?
    requires Keeps(OneMore(p, got))
    ensures var q := OneMore(p, got);
            forall k :: 0 <= k < |q.frames| ==> Admits(q.frames, k)
  {
    hide FirstFour;
    var s, q := p.state, OneMore(p, got);
    var n := |p.frames|;
    CallKeepsAlive(s, got);
    assert (s.part + got)[0..4] == s.part[0..4];
    assert q.frames[..n + 1] == q.frames;
    assert q.state.buffer[..4] == FirstFour(q.frames);
    forall k | 0 <= k < n ensures Admits(q.frames, k) {
      assert Admits(p.frames, k) && q.frames[..k + 1] == p.frames[..k + 1];
    }
  }

  lemma {:induction false} RunAdmits(p: Progress, chunks: seq<seq<byte>>)
    requires Admitted(p) && Possible(p, chunks)
    ensures Admitted(Run(p, chunks))
    decreases chunks
  {
    if chunks != [] {
      StepAdmits(p, chunks[0]);
      RunAdmits(OneMore(p, chunks[0]), chunks[1..]);
    }
  }

  /** In every run: what has been dispatched is admissible message by message; the client has stopped only at a message
    * that is not, and it never reads on behind the header of an unwelcome one. */
  lemma StopsOnlyAtOffence(chunks: seq<seq<byte>>)
    requires Possible(START, chunks)
    ensures var p := Run(START, chunks);
            && (forall k :: 0 <= k < |p.frames| ==> Admits(p.frames, k))
            && (!p.alive ==> Offends(p.state))
            && (p.alive && |p.state.part| >= 12 ==> Welcome(FromBe32(p.state.part[0..4])))
  {
    assert Keeps(START);
    RunAdmits(START, chunks);
  }

  // ---- What is left in the buffer ----

  /** The first four bytes of a buffer that held `b` there, after `x` was written to its start. */
  function Over(b: seq<byte>, x: seq<byte>): (r: seq<byte>)
    requires |b| == 4
    ensures |r| == 4
  {
    x[..Min(4, |x|)] + b[Min(4, |x|)..]
  }

  /** The first four bytes of the payload buffer once the messages have been dispatched. */
  function FirstFour(frames: seq<Frame>): (r: seq<byte>)
    ensures |r| == 4
  {
    if frames == [] then [0, 0, 0, 0] else Over(FirstFour(frames[..|frames| - 1]), frames[|frames| - 1].payload)
  }

  lemma FirstFourSnoc(frames: seq<Frame>, f: Frame)
    ensures FirstFour(frames + [f]) == Over(FirstFour(frames), f.payload)
  {
    assert (frames + [f])[..|frames|] == frames;
  }

  /** What the message at hand has not yet overwritten is left over from those before it. */
  ghost predicate Keeps(p: Progress) {
    p.state.Ok()
    && forall k :: 0 <= k < 4 && HEADER_SIZE + k >= |p.state.part| ==> p.state.buffer[k] == FirstFour(p.frames)[k]
  }

  lemma StepKeeps(p: Progress, got: seq<byte>)
    requires Keeps(p) && p.state.Gives(got)
    ensures Keeps(OneMore(p, got))
  {
    hide FirstFour;
    var s := p.state;
    if p.alive && |s.part| >= HEADER_SIZE {
      var part, at := s.part + got, |s.part| - HEADER_SIZE;
      PartKept(s, got);
      var buffer := s.buffer[..at] + got + s.buffer[at + |got|..];
      assert forall k :: at + |got| <= k < 4 ==> buffer[k] == s.buffer[k];
      if |got| == s.Wanted() {
        FirstFourSnoc(p.frames, FrameOf(part));
        assert buffer[..at + |got|] == FrameOf(part).payload;
        forall k | 0 <= k < 4 ensures buffer[k] == Over(FirstFour(p.frames), FrameOf(part).payload)[k] {
          if k < at + |got| {
            assert buffer[k] == buffer[..at + |got|][k];
          }
        }
      }
    }
  }

  lemma {:induction false} RunKeeps(p: Progress, chunks: seq<seq<byte>>)
    requires Keeps(p) && Possible(p, chunks)
    ensures Keeps(Run(p, chunks))
    decreases chunks
  {
    if chunks != [] {
      StepKeeps(p, chunks[0]);
      RunKeeps(OneMore(p, chunks[0]), chunks[1..]);
    }
  }

  /** In every run, however it is cut: as long as no payload byte of the next message has been read, the buffer begins
    * with what the dispatched messages left there. */
  lemma BufferIsLeftOver(chunks: seq<seq<byte>>)
    requires Possible(START, chunks)
    ensures var p := Run(START, chunks);
            |p.state.part| <= HEADER_SIZE ==> p.state.Ok() && p.state.buffer[..4] == FirstFour(p.frames)
  {
    assert Keeps(START);
    RunKeeps(START, chunks);
  }

  /** Empty messages leave the buffer as it is, so the last longer one shows. */
  lemma {:induction false} EmptyLeavesAll(frames: seq<Frame>, more: seq<Frame>)
    requires forall i :: 0 <= i < |more| ==> more[i].payload == []
    ensures FirstFour(frames + more) == FirstFour(frames)
  {
    if more == [] {
      assert frames + more == frames;
    } else {
      var n := |more| - 1;
      EmptyLeavesAll(frames, more[..n]);
      assert frames + more == (frames + more[..n]) + [more[n]];
      FirstFourSnoc(frames + more[..n], more[n]);
    }
  }

  /** A reader that has stopped stays as it is. */
  lemma {:induction false} DeadStays(p: Progress, chunks: seq<seq<byte>>)
    requires p.state.Ok() && !p.alive && Possible(p, chunks)
    ensures Run(p, chunks) == p
    decreases chunks
  {
    if chunks != [] {
      DeadStays(p, chunks[1..]);
    }
  }

  /** The static variables of do_socket_read. */
  class Reader {
    var inMessage: bool
    var toRead: nat
    var buf: nat // how much of the current target is filled
    const header: array<byte>
    const payload: array<byte>
    var kind: nat
    var id: nat
    var length: nat

    ghost predicate Valid()
      reads this, header, payload
    {
      && header.Length == HEADER_SIZE && payload.Length == APDU_BUF_SIZE && header != payload
      && if inMessage then kind < WORD && id < WORD && length < WORD && buf <= APDU_BUF_SIZE && buf + toRead == length
         else toRead == 0 || buf + toRead == HEADER_SIZE
    }

    ghost function View(): (s: Deframing)
      requires Valid()
      reads this, header, payload
    {
      Deframing(if inMessage then Be32(kind) + Be32(id) + Be32(length) + payload[..buf]
                else if toRead == 0 then [] else header[..buf], payload[..])
    }

    lemma ViewOk()
      requires Valid()
      ensures View().Ok()
      ensures View().Wanted() == if !inMessage && toRead == 0 then HEADER_SIZE else toRead
      ensures inMessage ==> LengthIn(View().part) == length && FromBe32(View().part[0..4]) == kind
                            && FromBe32(View().part[4..8]) == id
    {
      if inMessage {
        BytesOfBe32(length);
        BytesOfBe32(kind);
        BytesOfBe32(id);
        var part := View().part;
        assert part[8..12] == Be32(length) && part[0..4] == Be32(kind) && part[4..8] == Be32(id);
        assert part[12..] == payload[..buf] == payload[..][..buf];
      }
    }

    constructor ()
      ensures Valid() && fresh(header) && fresh(payload) && View() == START.state
    {
      inMessage, toRead, buf, kind, id, length := false, 0, 0, 0, 0, 0;
      header := new byte[HEADER_SIZE];
      payload := new byte[APDU_BUF_SIZE](i => 0);
      new;
      assert payload[..] == START.state.buffer;
    }

    /** One call of do_socket_read; `got` is what the socket gives for the bytes asked for. There is no further
      * call once the result is false. */
    method SocketRead(got: seq<byte>) returns (keep: bool, frame: Option<Frame>)
      requires Valid() && View().Ok() && View().Gives(got)
      modifies this, header, payload
      ensures keep == Read(old(View()), got).keep && frame == Read(old(View()), got).frame
      ensures keep ==> Valid() && View() == Read(old(View()), got).next
    {
      hide Read, Be32, FromBe32, Expected;
      ViewOk();
      ghost var s := View();
      frame := None;
      if !inMessage && toRead == 0 {
        buf, toRead := 0, HEADER_SIZE;
      }
      ghost var at := buf;
      if toRead > 0 {
        Take(got);
        if toRead != 0 {
          if inMessage {
            MessageGoesOn(s, got);
          } else {
            HeaderGoesOn(s, got);
          }
          return true, None;
        }
      }
      if !inMessage {
        assert header[..] == s.part + got;
        keep := HeaderDone(s, got);
        return;
      }
      assert payload[..] == s.buffer[..at] + got + s.buffer[at + |got|..] by {
        if got == [] {
          assert s.buffer[..at] + [] + s.buffer[at..] == s.buffer;
        }
      }
      PayloadGrows(s, got, at, payload[..]);
      keep, frame := MessageDone();
    }

    /** What the socket gives goes into the current target. */
    method Take(got: seq<byte>)
      requires Valid() && 0 < toRead && |got| <= toRead && (inMessage ==> buf + |got| <= APDU_BUF_SIZE)
      modifies this`buf, this`toRead, header, payload
      ensures buf == old(buf) + |got| && toRead == old(toRead) - |got|
      ensures if inMessage then
                payload[..] == old(payload[..buf]) + got + old(payload[buf + |got|..])
              else header[..buf] == old(header[..buf]) + got && payload[..] == old(payload[..])
    {
      var target := if inMessage then payload else header;
      Fill(target, buf, got);
      buf := buf + |got|;
      toRead := toRead - |got|;
    }

    lemma MessageGoesOn(s: Deframing, got: seq<byte>)
      requires Valid() && inMessage && toRead > 0
      requires s.Ok() && s.Gives(got) && |got| < s.Wanted() && |s.part| + |got| == HEADER_SIZE + buf
      requires HEADER_SIZE <= |s.part|
      requires kind == FromBe32(s.part[0..4]) && id == FromBe32(s.part[4..8]) && length == LengthIn(s.part)
      requires var at := buf - |got|; payload[..] == s.buffer[..at] + got + s.buffer[buf..]
      ensures Read(s, got).keep && Read(s, got).frame == None && View() == Read(s, got).next
    {
      hide Read, Be32, FromBe32;
      PayloadGrows(s, got, buf - |got|, payload[..]);
      MessagePart(s);
    }

    lemma HeaderGoesOn(s: Deframing, got: seq<byte>)
      requires Valid() && !inMessage && 0 < toRead
      requires s.Ok() && s.Gives(got) && |s.part| + |got| == buf
      requires header[..buf] == s.part + got && payload[..] == s.buffer
      ensures Read(s, got).keep && Read(s, got).frame == None && View() == Read(s, got).next
    {
      hide Read, Be32, FromBe32;
      HeaderGrows(s, got);
    }

    /** The STATE_HEADER part, once the header is complete. */
    method HeaderDone(ghost s: Deframing, ghost got: seq<byte>) returns (keep: bool)
      requires Valid() && !inMessage && toRead == 0
      requires s.Ok() && s.Gives(got) && |s.part| < HEADER_SIZE
      requires header[..] == s.part + got && payload[..] == s.buffer
      modifies this
      ensures Read(s, got).frame == None && keep == Read(s, got).keep
      ensures keep ==> Valid() && View() == Read(s, got).next
    {
      hide Read;
      HeaderGrows(s, got);
      HeaderKept(header[..]);
      kind, id, length := FromBe32(header[0..4]), FromBe32(header[4..8]), FromBe32(header[8..12]);
      if Expected(kind) {
        buf, toRead, inMessage := 0, length, true;
        assert payload[..0] == [];
        return true;
      }
      return false;
    }

    /** The STATE_MESSAGE part, once the payload is complete. */
    method MessageDone() returns (keep: bool, frame: Option<Frame>)
      requires Valid() && inMessage && toRead == 0 && buf == length
      modifies this
      ensures keep <==> kind != VSC_INIT || payload[..4] == MAGIC
      ensures frame == if keep then old(Some(Frame(kind, id, payload[..length]))) else None
      ensures kind == old(kind) && id == old(id) && length == old(length)
      ensures keep ==> !inMessage && toRead == 0
    {
      if kind == VSC_INIT && payload[..4] != MAGIC {
        return false, None;
      }
      frame := Some(Frame(kind, id, payload[..length]));
      inMessage := false;
      keep := true;
    }

    /** The three fields hold what the header said. */
    static lemma HeaderKept(h: seq<byte>)
      requires |h| == HEADER_SIZE
      ensures Be32(FromBe32(h[0..4])) + Be32(FromBe32(h[4..8])) + Be32(FromBe32(h[8..12])) + [] == h
    {
      Be32OfBytes(h[0..4]);
      Be32OfBytes(h[4..8]);
      Be32OfBytes(h[8..12]);
      assert h == h[0..4] + h[4..8] + h[8..12];
    }

    static lemma HeaderGrows(s: Deframing, got: seq<byte>)
      requires s.Ok() && s.Gives(got) && |s.part| < HEADER_SIZE
      ensures Read(s, got).next == Deframing(s.part + got, s.buffer) && Read(s, got).frame == None
      ensures Read(s, got).keep <==> (|s.part + got| == HEADER_SIZE ==> Expected(FromBe32((s.part + got)[0..4])))
    {
    }

    /** The header of the message at hand, rebuilt from its three numbers. */
    static lemma MessagePart(s: Deframing)
      requires s.Ok() && |s.part| >= HEADER_SIZE
      ensures Be32(FromBe32(s.part[0..4])) + Be32(FromBe32(s.part[4..8])) + Be32(LengthIn(s.part))
           == s.part[..HEADER_SIZE]
    {
      HeaderKept(s.part[..HEADER_SIZE]);
      assert s.part[..HEADER_SIZE][0..4] == s.part[0..4] && s.part[..HEADER_SIZE][4..8] == s.part[4..8]
          && s.part[..HEADER_SIZE][8..12] == s.part[8..12];
    }

    static lemma PayloadGrows(s: Deframing, got: seq<byte>, at: nat, now: seq<byte>)
      requires s.Ok() && s.Gives(got) && |s.part| == HEADER_SIZE + at
      requires at + |got| <= |s.buffer| && now == s.buffer[..at] + got + s.buffer[at + |got|..]
      ensures Read(s, got) == if |got| < s.Wanted() then
                                Step(Deframing(s.part[..HEADER_SIZE] + now[..at + |got|], now), true, None)
                              else if FromBe32(s.part[0..4]) == VSC_INIT && now[..4] != MAGIC then
                                Step(Deframing(s.part[..HEADER_SIZE] + now[..at + |got|], now), false, None)
                              else Step(Deframing([], now), true,
                                        Some(Frame(FromBe32(s.part[0..4]), FromBe32(s.part[4..8]), now[..at + |got|])))
    {
      PartKept(s, got);
      assert now[..at + |got|] == s.buffer[..at] + got;
      assert s.part == s.part[..HEADER_SIZE] + s.buffer[..at];
      Assoc(s.part[..HEADER_SIZE], s.buffer[..at], got);
      var part := s.part + got;
      assert part[0..4] == s.part[0..4] && part[4..8] == s.part[4..8];
    }

    static method Fill(a: array<byte>, at: nat, got: seq<byte>)
      requires at + |got| <= a.Length
      modifies a
      ensures a[..] == old(a[..at]) + got + old(a[at + |got|..])
    {
      ghost var before := a[..];
      for k := 0 to |got|
        invariant forall j :: 0 <= j < a.Length ==> a[j] == if at <= j < at + k then got[j - at] else before[j]
      {
        a[at + k] := got[k];
      }
      Filled(before, a[..], at, got);
    }

    /** A stretch of a row replaced, place by place. */
    static lemma Filled(before: seq<byte>, now: seq<byte>, at: nat, got: seq<byte>)
      requires at + |got| <= |before| == |now|
      requires forall j :: 0 <= j < |now| ==> now[j] == if at <= j < at + |got| then got[j - at] else before[j]
      ensures now == before[..at] + got + before[at + |got|..]
    {
    }
  }

  /** socket_to_send, send_msg and do_socket_send. The reader id of a message is not sent: its field is zero. */
  class Sender {
    var toSend: seq<byte>
    ghost var sent: seq<byte>
    ghost var messages: seq<Frame>

    ghost predicate Valid()
      reads this
    {
      sent + toSend == WireAll(messages) && AllOk(messages) && forall i :: 0 <= i < |messages| ==> messages[i].id == 0
    }

    constructor ()
      ensures Valid() && messages == [] && sent == [] && toSend == []
    {
      toSend, sent, messages := [], [], [];
    }

    method SendMsg(kind: nat, readerId: nat, msg: seq<byte>)
      requires Valid() && kind < WORD && |msg| < WORD
      modifies this
      ensures Valid() && messages == old(messages) + [Frame(kind, 0, msg)] && sent == old(sent)
    {
      var header := Be32(kind) + Be32(0) + Be32(|msg|);
      ghost var f := Frame(kind, 0, msg);
      WireSnoc(messages, f);
      Assoc(sent, toSend, f.Wire());
      Assoc(toSend, header, msg);
      toSend := toSend + header;
      toSend := toSend + msg;
      messages := messages + [f];
    }

    /** The channel takes `taken` bytes; the result says whether to keep watching for room. */
    method SocketSend(taken: nat) returns (more: bool)
      requires Valid() && toSend != [] && taken <= |toSend|
      modifies this
      ensures Valid() && messages == old(messages) && sent == old(sent + toSend[..taken])
      ensures more <==> sent != WireAll(messages)
    {
      assert toSend[..taken] + toSend[taken..] == toSend;
      Assoc(sent, toSend[..taken], toSend[taken..]);
      sent := sent + toSend[..taken];
      toSend := toSend[taken..];
      more := toSend != [];
    }
  }

  /** At every moment the other end can read a prefix of the messages, and all of them once nothing is left. */
  lemma SentMessagesArrive(sent: seq<byte>, toSend: seq<byte>, messages: seq<Frame>)
    requires sent + toSend == WireAll(messages) && AllOk(messages)
    ensures SplitOf(sent).frames <= messages
    ensures toSend == [] ==> SplitOf(sent) == Split(messages, [])
  {
    SplitIsMonotone(sent, toSend);
    SplitInvertsWire(messages, []);
    assert WireAll(messages) + [] == WireAll(messages);
    assert messages + [] == messages;
    if toSend == [] {
      assert sent + [] == sent;
    }
  }
}
