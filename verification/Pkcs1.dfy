/** The RSA operation of a card (vcard_emul_rsa_op of src/vcard_emul_nss.c). The card promises the raw operation;
  * a token that only offers the PKCS #1 ones is made to look as if it did it. The token itself is outside:
  * what it would answer is given. */
module Pkcs1 {
  import opened Bytes
  import opened Apdus
  import SimpleTlvCodec

  const DATA_INVALID: Status := 0x6984
  const CONDITION_NOT_SATISFIED: Status := 0x6985
  const ERROR_GENERAL: Status := 0x6f00

  /** Whether the raw operation is known to work: failedX509 false, true, or unknown. */
  datatype RawState = Works | Fails | Untried

  /** The answers of the token for the block at hand. */
  datatype Token = Token(ready: bool, size: nat, offersRaw: bool, raw: Option<seq<byte>>,
                         sign: seq<byte> -> Option<seq<byte>>, decrypt: Option<seq<byte>>, error: Status)
  {
    /** Results have the size of the modulus; deciphered data is at most that long. An error is an error. */
    ghost predicate Ok() {
      && size >= 2 && error != SUCCESS
      && (raw.Some? ==> |raw.value| == size)
      && (forall t :: sign(t).Some? ==> |sign(t).value| == size)
      && (decrypt.Some? ==> |decrypt.value| <= size)
    }
  }

  // ---- Blocks ----

  function Fill(n: nat, b: byte): (r: seq<byte>)
    ensures |r| == n && forall i :: 0 <= i < n ==> r[i] == b
  {
    seq(n, i => b)
  }

  /** A signature block of section 9.2 of RFC 8017 with `k` bytes of padding. */
  function SignBlock(k: nat, t: seq<byte>): seq<byte> {
    [0x00, 0x01] + Fill(k, 0xff) + [0x00] + t
  }

  /** An encryption block of section 7.2.1 with constant padding. */
  function RepackedBlock(n: nat, m: seq<byte>): (r: seq<byte>)
    requires |m| + 4 <= n
    ensures |r| == n
  {
    [0x00, 0x02] + Fill(n - 3 - |m|, 0x03) + [0x00] + m
  }

  /** The first position from `i` on whose byte is `b`, or is not. */
  function Find(s: seq<byte>, i: nat, b: byte, same: bool): (j: nat)
    requires i <= |s|
    ensures i <= j <= |s|
    ensures forall k :: i <= k < j ==> (s[k] == b) != same
    ensures j < |s| ==> (s[j] == b) == same
    decreases |s| - i
  {
    if i == |s| || (s[i] == b) == same then i else Find(s, i + 1, b, same)
  }

  /** Decoding an encryption block, section 7.2.2 step 3 of RFC 8017, with a minimum for the padding. */
  function Strip(block: seq<byte>, least: nat): Option<seq<byte>> {
    if |block| < 2 || block[0] != 0x00 || block[1] != 0x02 then None
    else
      var z := Find(block, 2, 0x00, true);
      if z == |block| || z < 2 + least then None else Some(block[z + 1..])
  }

  /** What a signature block signs; the amount of padding does not matter. */
  function Signed(block: seq<byte>): Option<seq<byte>>
    requires |block| >= 2
  {
    if block[0] != 0x00 || block[1] != 0x01 then None
    else
      var i := Find(block, 2, 0xff, false);
      if i < |block| && block[i] == 0x00 then Some(block[i + 1..]) else None
  }

  lemma FindIs(s: seq<byte>, i: nat, b: byte, same: bool, j: nat)
    requires i <= j <= |s|
    requires forall k :: i <= k < j ==> (s[k] == b) != same
    requires j == |s| || (s[j] == b) == same
    ensures Find(s, i, b, same) == j
  {
  }

  /** The scan recognizes exactly the signature blocks and finds exactly what they sign. */
  lemma SignedIsExact(block: seq<byte>, t: seq<byte>)
    requires |block| >= 2
    ensures Signed(block) == Some(t) <==> exists k: nat :: block == SignBlock(k, t)
  {
    if Signed(block) == Some(t) {
      var i := Find(block, 2, 0xff, false);
      assert block[..2] == [0x00, 0x01] && block[2..i] == Fill(i - 2, 0xff) && block[i..i + 1] == [0x00];
      assert block == block[..2] + block[2..i] + block[i..i + 1] + block[i + 1..];
      assert block == SignBlock(i - 2, t);
    }
    if k: nat :| block == SignBlock(k, t) {
      SignedBlock(k, t);
    }
  }

  lemma SignedBlock(k: nat, t: seq<byte>)
    ensures Signed(SignBlock(k, t)) == Some(t)
  {
    var b := SignBlock(k, t);
    assert forall j :: 2 <= j < 2 + k ==> b[j] == Fill(k, 0xff)[j - 2];
    assert b[2 + k] == 0x00;
    FindIs(b, 2, 0xff, false, 2 + k);
    assert b[2 + k + 1..] == t;
  }

  /** Stripping a repacked block gives the data back, with whatever minimum its padding still meets. */
  lemma StripInvertsRepack(n: nat, m: seq<byte>, least: nat)
    requires |m| + 4 <= n
    ensures Strip(RepackedBlock(n, m), least) == if |m| + 3 + least <= n then Some(m) else None
  {
    var b := RepackedBlock(n, m);
    var z := n - 1 - |m|;
    assert forall j :: 2 <= j < z ==> b[j] == Fill(n - 3 - |m|, 0x03)[j - 2];
    assert b[z] == 0x00;
    FindIs(b, 2, 0x00, true, z);
    assert b[z + 1..] == m;
  }

  // ---- The operation ----

  datatype Result = Result(status: Status, data: seq<byte>, state: RawState)

  /** vcard_emul_rsa_op on the bytes of the buffer */
  function RsaOp(state: RawState, data: seq<byte>, t: Token): Result
    requires t.size >= 2
  {
    if !t.ready then Result(CONDITION_NOT_SATISFIED, data, state)
    else if |data| != t.size then Result(DATA_INVALID, data, state)
    else if state != Fails && t.offersRaw && t.raw.Some? then Result(SUCCESS, t.raw.value, Works)
    else if state == Works && t.offersRaw then Result(t.error, data, state)
    else Emulated(state, data, t)
  }

  /** The same with the token's PKCS #1 operations. */
  function Emulated(state: RawState, data: seq<byte>, t: Token): Result
    requires |data| >= 2
  {
    var signed := Signed(data);
    if signed.Some? then
      var r := t.sign(signed.value);
      if r.None? then Result(t.error, data, state) else Result(SUCCESS, r.value, Fails)
    else if t.decrypt.None? then Result(t.error, data, state)
    else if |t.decrypt.value| + 4 > |data| then Result(ERROR_GENERAL, data, state)
    else Result(SUCCESS, RepackedBlock(|data|, t.decrypt.value), Fails)
  }

  /** A failure changes nothing, and a success never changes the length: the caller's buffer always fits. */
  lemma RsaOpIsInPlace(state: RawState, data: seq<byte>, t: Token)
    requires t.Ok()
    ensures var r := RsaOp(state, data, t);
            && |r.data| == |data|
            && (r.status != SUCCESS ==> r.data == data && r.state == state)
            && (r.status == SUCCESS ==> r.state != Untried && t.ready && |data| == t.size)
  {
  }

  /** Whether the raw operation is used: the token offers it, it is not known to fail, and it works on this block. */
  predicate UsesRaw(state: RawState, t: Token) {
    state != Fails && t.offersRaw && t.raw.Some?
  }

  /** Whether the PKCS #1 operations are tried instead: the raw one is not offered or known to fail, or it has just
    * failed without ever having worked. */
  predicate TriesPkcs1(state: RawState, t: Token) {
    state == Fails || !t.offersRaw || (state == Untried && t.raw.None?)
  }

  /** Everything the operation can do with a block, enciphered or to be signed. */
  predicate Outcome(status: Status, after: seq<byte>, known: RawState, state: RawState, data: seq<byte>, t: Token)
    requires t.size >= 2
  {
    // refused before the token is asked
    && (!t.ready ==> status == 0x6985 && after == data && known == state)
    && (t.ready && |data| != t.size ==> status == 0x6984 && after == data && known == state)
    && (t.ready && |data| == t.size ==>
          // the raw operation, if it can be had
          && (UsesRaw(state, t) ==> status == 0x9000 && after == t.raw.value && known == Works)
          // a failure of an operation that is known to work is reported
          && (!UsesRaw(state, t) && !TriesPkcs1(state, t) ==> status == t.error && after == data && known == state)
          && (TriesPkcs1(state, t) ==> match Signed(data)
                case Some(m) =>
                  if t.sign(m).Some? then status == 0x9000 && after == t.sign(m).value && known == Fails
                  else status == t.error && after == data && known == state
                case None =>
                  if t.decrypt.None? then status == t.error && after == data && known == state
                  else if |t.decrypt.value| + 4 > |data| then status == 0x6f00 && after == data && known == state
                  else status == 0x9000 && known == Fails && |after| == |data|
                       && Strip(after, |data| - 3 - |t.decrypt.value|) == t.decrypt))
  }

  /** The operation succeeds on exactly these blocks. */
  predicate Succeeds(state: RawState, data: seq<byte>, t: Token)
    requires t.size >= 2
  {
    && t.ready && |data| == t.size
    && (UsesRaw(state, t)
        || (TriesPkcs1(state, t) && match Signed(data)
              case Some(m) => t.sign(m).Some?
              case None => t.decrypt.Some? && |t.decrypt.value| + 4 <= |data|))
  }

  /** For every block, every token and whatever is remembered of it. */
  lemma RsaOutcome(state: RawState, data: seq<byte>, t: Token)
    requires t.Ok()
    ensures var r := RsaOp(state, data, t);
            && Outcome(r.status, r.data, r.state, state, data, t)
            && (r.status == 0x9000 <==> Succeeds(state, data, t))
  {
    if t.decrypt.Some? && |t.decrypt.value| + 4 <= |data| {
      StripInvertsRepack(|data|, t.decrypt.value, |data| - 3 - |t.decrypt.value|);
    }
  }

  /** A token whose PKCS #1 operations are what RFC 8017 makes of one raw operation: signing pads with at least
    * eight bytes, deciphering strips at least eight. */
  ghost predicate Honest(t: Token, data: seq<byte>, raw: seq<byte> -> seq<byte>) {
    && t.Ok() && t.ready && |data| == t.size
    && (t.raw.Some? ==> t.raw.value == raw(data))
    && (forall m :: t.sign(m) == if |m| + 11 <= t.size then Some(raw(SignBlock(t.size - 3 - |m|, m))) else None)
    && t.decrypt == Strip(raw(data), 8)
  }

  /** A signature block comes out the same with and without the raw operation, provided it is padded as the
    * standard demands; with less padding the emulation refuses it. */
  lemma SigningIsEmulated(state: RawState, k: nat, m: seq<byte>, t: Token, raw: seq<byte> -> seq<byte>)
    requires Honest(t, SignBlock(k, m), raw)
    ensures var data := SignBlock(k, m);
            Emulated(state, data, t)
            == if k >= 8 then Result(SUCCESS, raw(data), Fails) else Result(t.error, data, state)
  {
    SignedBlock(k, m);
    assert |SignBlock(k, m)| == 3 + k + |m|;
  }

  /** Whatever the token offers and whatever is remembered of it, a success on such a block is the raw operation's
    * result. */
  lemma SignatureIsTheRawOne(state: RawState, k: nat, m: seq<byte>, t: Token, raw: seq<byte> -> seq<byte>)
    requires Honest(t, SignBlock(k, m), raw) && k >= 8
    ensures var r := RsaOp(state, SignBlock(k, m), t);
            r.status == SUCCESS ==> r.data == raw(SignBlock(k, m))
  {
    SigningIsEmulated(state, k, m, t, raw);
  }

  /** Any other block is taken for an enciphered one. If it is, the caller strips the same data from the emulated
    * result as from the raw one; if it is not, there is an error. */
  lemma DecipheringIsEmulated(state: RawState, data: seq<byte>, t: Token, raw: seq<byte> -> seq<byte>)
    requires Honest(t, data, raw) && Signed(data).None? && |raw(data)| == |data|
    ensures var r := Emulated(state, data, t);
            && (r.status == SUCCESS <==> Strip(raw(data), 8).Some?)
            && (r.status == SUCCESS ==> Strip(r.data, 8) == Strip(raw(data), 8))
  {
    var m := Strip(raw(data), 8);
    if m.Some? {
      StripInvertsRepack(|data|, m.value, 8);
    }
  }

  // ---- In place ----

  class Key {
    var state: RawState

    constructor ()
      ensures state == Untried
    {
      state := Untried;
    }
  }

  /** vcard_emul_rsa_op */
  method RsaOpInPlace(key: Key?, buffer: array<byte>, t: Token) returns (status: Status)
    requires t.Ok()
    modifies buffer, key
    ensures key == null ==> status == CONDITION_NOT_SATISFIED && buffer[..] == old(buffer[..])
    ensures key != null ==> Result(status, buffer[..], key.state) == RsaOp(old(key.state), old(buffer[..]), t)
    ensures key != null ==> Outcome(status, buffer[..], key.state, old(key.state), old(buffer[..]), t)
                            && (status == 0x9000 <==> Succeeds(old(key.state), old(buffer[..]), t))
  {
    if key != null {
      RsaOutcome(key.state, buffer[..], t);
    }
    if key == null || !t.ready {
      return CONDITION_NOT_SATISFIED;
    }
    if buffer.Length != t.size {
      return DATA_INVALID;
    }
    if key.state != Fails && t.offersRaw {
      if t.raw.Some? {
        Overwrite(buffer, t.raw.value);
        key.state := Works;
        return SUCCESS;
      }
      if key.state == Works {
        return t.error;
      }
    }
    var i := ScanSignature(buffer);
    if i <= buffer.Length {
      var r := t.sign(buffer[i..]);
      if r.None? {
        return t.error;
      }
      Overwrite(buffer, r.value);
      key.state := Fails;
      return SUCCESS;
    }
    if t.decrypt.None? {
      return t.error;
    }
    var padLen := buffer.Length - |t.decrypt.value|;
    if padLen < 4 {
      return ERROR_GENERAL;
    }
    Repack(buffer, t.decrypt.value);
    key.state := Fails;
    status := SUCCESS;
  }

  method Overwrite(buffer: array<byte>, w: seq<byte>)
    requires |w| == buffer.Length
    modifies buffer
    ensures buffer[..] == w
  {
    ghost var before := buffer[..];
    SimpleTlvCodec.Copy(w, buffer, 0);
    WroteAll(before, buffer[..], w);
  }

  /** Where the signed data of a signature block begins; beyond the end when the block is not one. */
  method ScanSignature(buffer: array<byte>) returns (start: nat)
    requires buffer.Length >= 2
    ensures start <= buffer.Length ==> Signed(buffer[..]) == Some(buffer[start..])
    ensures start > buffer.Length ==> Signed(buffer[..]) == None
  {
    if buffer[0] == 0x00 && buffer[1] == 0x01 {
      var i := 2;
      while i < buffer.Length && buffer[i] == 0xff
        invariant 2 <= i <= buffer.Length
        invariant forall k :: 2 <= k < i ==> buffer[k] == 0xff
      {
        i := i + 1;
      }
      FindIs(buffer[..], 2, 0xff, false, i);
      if i < buffer.Length && buffer[i] == 0x00 {
        return i + 1;
      }
    }
    return buffer.Length + 1;
  }

  /** The payload goes behind a header and constant padding that fill the block exactly. */
  method Repack(buffer: array<byte>, payload: seq<byte>)
    requires |payload| + 4 <= buffer.Length
    modifies buffer
    ensures buffer[..] == RepackedBlock(buffer.Length, payload)
  {
    var padLen := buffer.Length - |payload|;
    buffer[0] := 0;
    buffer[1] := 2;
    padLen := padLen - 3;
    ghost var n := padLen;
    forall k | 0 <= k < padLen {
      buffer[2 + k] := 0x03;
    }
    padLen := padLen + 2;
    buffer[padLen] := 0;
    padLen := padLen + 1;
    ghost var before := buffer[..];
    assert before[..padLen] == [0x00, 0x02] + Fill(n, 0x03) + [0x00];
    SimpleTlvCodec.Copy(payload, buffer, padLen);
    assert buffer[..padLen] == before[..padLen];
    assert buffer[..] == buffer[..padLen] + buffer[padLen..padLen + |payload|];
  }
}
