/** Mirroring a token (vcard_emul_mirror_card of src/vcard_emul_nss.c): the certificates found on it go into four
  * parallel arrays that are kept in the order of the certificates' IDs. */
module CertArrays {
  import opened Bytes

  datatype Cert = Cert(der: seq<byte>, length: int, key: int, id: seq<byte>)

  /** How the token's library compares two IDs: "is less than". */
  type Less = (seq<byte>, seq<byte>) -> bool

  /** Comparing orders the IDs: it is the strict part of a total preorder. */
  ghost predicate Orders(less: Less) {
    && (forall a, b :: less(a, b) ==> !less(b, a))
    && (forall a, b, c :: less(a, c) ==> less(a, b) || less(b, c))
  }

  // ---- What the arrays should hold ----

  ghost predicate Sorted(l: seq<Cert>, less: Less) {
    forall i, j :: 0 <= i < j < |l| ==> !less(l[j].id, l[i].id)
  }

  predicate Alike(a: seq<byte>, b: seq<byte>, less: Less) {
    !less(a, b) && !less(b, a)
  }

  /** The certificates whose ID compares equal to `id`, in order. */
  function Class(l: seq<Cert>, id: seq<byte>, less: Less): seq<Cert> {
    if l == [] then [] else (if Alike(l[0].id, id, less) then [l[0]] else []) + Class(l[1..], id, less)
  }

  /** `l` is `found` sorted stably: in order, and certificates with equal IDs as they were found. */
  ghost predicate StableSort(l: seq<Cert>, found: seq<Cert>, less: Less) {
    Sorted(l, less) && forall id :: Class(l, id, less) == Class(found, id, less)
  }

  // ---- What the code does ----

  /** The first position whose ID is greater. */
  function Position(l: seq<Cert>, id: seq<byte>, less: Less): (i: nat)
    ensures i <= |l|
  {
    if l == [] || less(id, l[0].id) then 0 else 1 + Position(l[1..], id, less)
  }

  function Insert(l: seq<Cert>, c: Cert, less: Less): seq<Cert> {
    var i := Position(l, c.id, less);
    l[..i] + [c] + l[i..]
  }

  function InsertAll(found: seq<Cert>, less: Less): seq<Cert> {
    if found == [] then [] else Insert(InsertAll(found[..|found| - 1], less), found[|found| - 1], less)
  }

  lemma InsertAllSnoc(found: seq<Cert>, c: Cert, less: Less)
    ensures InsertAll(found + [c], less) == Insert(InsertAll(found, less), c, less)
  {
    assert (found + [c])[..|found|] == found;
  }

  lemma {:induction false} PositionSplits(l: seq<Cert>, id: seq<byte>, less: Less)
    requires Orders(less) && Sorted(l, less)
    ensures var i := Position(l, id, less);
            && (forall k :: 0 <= k < i ==> !less(id, l[k].id))
            && (forall k :: i <= k < |l| ==> less(id, l[k].id))
  {
    if l != [] && !less(id, l[0].id) {
      PositionSplits(l[1..], id, less);
      var i := Position(l[1..], id, less);
      forall k | 0 <= k < i + 1 ensures !less(id, l[k].id) {
        if k > 0 {
          assert l[k] == l[1..][k - 1];
        }
      }
      forall k | i + 1 <= k < |l| ensures less(id, l[k].id) {
        assert l[k] == l[1..][k - 1];
      }
    }
  }

  lemma InsertKeepsSorted(l: seq<Cert>, c: Cert, less: Less)
    requires Orders(less) && Sorted(l, less)
    ensures Sorted(Insert(l, c, less), less)
  {
    PositionSplits(l, c.id, less);
    var i := Position(l, c.id, less);
    var m := Insert(l, c, less);
    forall j, k | 0 <= j < k < |m| ensures !less(m[k].id, m[j].id) {
      var a := if j < i then j else j - 1;
      var b := if k < i then k else k - 1;
      assert j != i ==> m[j] == l[a];
      assert k != i ==> m[k] == l[b];
    }
  }

  lemma {:induction false} ClassConcat(a: seq<Cert>, b: seq<Cert>, id: seq<byte>, less: Less)
    ensures Class(a + b, id, less) == Class(a, id, less) + Class(b, id, less)
  {
    if a == [] {
      assert a + b == b;
    } else {
      hide Alike;
      assert (a + b)[0] == a[0] && (a + b)[1..] == a[1..] + b;
      ClassConcat(a[1..], b, id, less);
      var head := if Alike(a[0].id, id, less) then [a[0]] else [];
      Assoc(head, Class(a[1..], id, less), Class(b, id, less));
    }
  }

  lemma {:induction false} NoneAlike(l: seq<Cert>, id: seq<byte>, less: Less)
    requires forall k :: 0 <= k < |l| ==> !Alike(l[k].id, id, less)
    ensures Class(l, id, less) == []
  {
    if l != [] {
      NoneAlike(l[1..], id, less);
    }
  }

  /** A new certificate goes behind those with an equal ID. */
  lemma InsertExtendsClass(l: seq<Cert>, c: Cert, id: seq<byte>, less: Less)
    requires Orders(less) && Sorted(l, less)
    ensures Class(Insert(l, c, less), id, less) == Class(l, id, less) + Class([c], id, less)
  {
    var i := Position(l, c.id, less);
    var a, b := l[..i], l[i..];
    assert l == a + b;
    ClassConcat(a, b, id, less);
    ClassConcat(a + [c], b, id, less);
    ClassConcat(a, [c], id, less);
    NothingBehind(l, c, id, less);
  }

  lemma NothingBehind(l: seq<Cert>, c: Cert, id: seq<byte>, less: Less)
    requires Orders(less) && Sorted(l, less)
    ensures var i := Position(l, c.id, less);
            Class([c], id, less) == [] || Class(l[i..], id, less) == []
  {
    if Alike(c.id, id, less) {
      PositionSplits(l, c.id, less);
      var b := l[Position(l, c.id, less)..];
      forall k | 0 <= k < |b| ensures !Alike(b[k].id, id, less) {
        assert less(c.id, b[k].id);
      }
      NoneAlike(b, id, less);
    } else {
      NoneAlike([c], id, less);
    }
  }

  /** Nothing is lost or made up. */
  lemma {:induction false} InsertAllKeepsAll(found: seq<Cert>, less: Less)
    ensures multiset(InsertAll(found, less)) == multiset(found)
  {
    hide Insert;
    if found != [] {
      var before, c := found[..|found| - 1], found[|found| - 1];
      InsertAllKeepsAll(before, less);
      InsertKeepsAll(InsertAll(before, less), c, less);
      assert found == before + [c];
    }
  }

  lemma InsertKeepsAll(l: seq<Cert>, c: Cert, less: Less)
    ensures multiset(Insert(l, c, less)) == multiset(l) + multiset{c}
  {
    var i := Position(l, c.id, less);
    assert l == l[..i] + l[i..];
  }

  lemma InsertKeepsStableSort(l: seq<Cert>, found: seq<Cert>, c: Cert, less: Less)
    requires Orders(less) && StableSort(l, found, less)
    ensures StableSort(Insert(l, c, less), found + [c], less)
  {
    InsertKeepsSorted(l, c, less);
    forall id ensures Class(Insert(l, c, less), id, less) == Class(found + [c], id, less) {
      InsertExtendsClass(l, c, id, less);
      ClassConcat(found, [c], id, less);
      assert Class(l, id, less) == Class(found, id, less);
    }
  }

  /** Inserting one certificate after the other sorts them stably. */
  lemma {:induction false} InsertAllSorts(found: seq<Cert>, less: Less)
    requires Orders(less)
    ensures StableSort(InsertAll(found, less), found, less)
  {
    if found != [] {
      var before, c := found[..|found| - 1], found[|found| - 1];
      InsertAllSorts(before, less);
      InsertKeepsStableSort(InsertAll(before, less), before, c, less);
      assert found == before + [c];
    }
  }

  /** There is only one stable sort, so the result does not depend on how it is computed. */
  lemma {:induction false} StableSortIsUnique(a: seq<Cert>, b: seq<Cert>, less: Less)
    requires Orders(less) && Sorted(a, less) && Sorted(b, less)
    requires forall id :: Class(a, id, less) == Class(b, id, less)
    ensures a == b
  {
    if a == [] || b == [] {
      EmptyClasses(a, b, less);
    } else {
      FirstOf(a, b, less);
      forall id ensures Class(a[1..], id, less) == Class(b[1..], id, less) {
        assert Class(a, id, less) == Class(b, id, less);
        var first := if Alike(a[0].id, id, less) then [a[0]] else [];
        CutAt(first, Class(a[1..], id, less));
        CutAt(first, Class(b[1..], id, less));
      }
      StableSortIsUnique(a[1..], b[1..], less);
      assert a == [a[0]] + a[1..] && b == [b[0]] + b[1..];
    }
  }

  lemma EmptyClasses(a: seq<Cert>, b: seq<Cert>, less: Less)
    requires Orders(less) && (a == [] || b == []) && forall id :: Class(a, id, less) == Class(b, id, less)
    ensures a == b
  {
    var id := if a != [] then a[0].id else if b != [] then b[0].id else [];
    assert Class(a, id, less) == Class(b, id, less);
  }

  lemma {:induction false} ClassMember(l: seq<Cert>, id: seq<byte>, less: Less)
    requires Class(l, id, less) != []
    ensures Class(l, id, less)[0] in l && Alike(Class(l, id, less)[0].id, id, less)
  {
    if !Alike(l[0].id, id, less) {
      ClassMember(l[1..], id, less);
    }
  }

  /** Nothing in the class of the first certificate of one list precedes the other list. */
  lemma NotAfter(a: seq<Cert>, b: seq<Cert>, less: Less)
    requires Orders(less) && Sorted(b, less) && a != [] && b != []
    requires Class(a, a[0].id, less) == Class(b, a[0].id, less)
    ensures !less(a[0].id, b[0].id)
  {
    ClassMember(b, a[0].id, less);
    var c := Class(b, a[0].id, less)[0];
    var k :| 0 <= k < |b| && b[k] == c;
    assert k == 0 || !less(b[k].id, b[0].id);
  }

  lemma FirstOf(a: seq<Cert>, b: seq<Cert>, less: Less)
    requires Orders(less) && Sorted(a, less) && Sorted(b, less) && a != [] && b != []
    requires forall id :: Class(a, id, less) == Class(b, id, less)
    ensures a[0] == b[0]
  {
    assert Class(a, a[0].id, less) == Class(b, a[0].id, less);
    assert Class(a, b[0].id, less) == Class(b, b[0].id, less);
    NotAfter(a, b, less);
    NotAfter(b, a, less);
    assert Class(a, a[0].id, less)[0] == a[0];
    assert Class(b, a[0].id, less)[0] == b[0];
  }

  // ---- The arrays ----

  /** The first `count` rows of the four arrays. */
  ghost function Rows(certs: array<seq<byte>>, lengths: array<int>, keys: array<int>, ids: array<seq<byte>>,
                      count: nat): (l: seq<Cert>)
    requires count <= certs.Length && count <= lengths.Length && count <= keys.Length && count <= ids.Length
    reads certs, lengths, keys, ids
    ensures |l| == count
  {
    RowsOf(certs[..count], lengths[..count], keys[..count], ids[..count])
  }

  function RowsOf(certs: seq<seq<byte>>, lengths: seq<int>, keys: seq<int>, ids: seq<seq<byte>>): (l: seq<Cert>)
    requires |certs| == |lengths| == |keys| == |ids|
    ensures |l| == |certs|
  {
    seq(|certs|, k requires 0 <= k < |certs| => Cert(certs[k], lengths[k], keys[k], ids[k]))
  }

  function Opened<T>(s: seq<T>, i: nat, x: T): seq<T>
    requires i <= |s|
  {
    s[..i] + [x] + s[i..]
  }

  /** memmove of the entries from `i` on by one place, and the new entry in the gap. */
  method PutAt<T>(a: array<T>, i: nat, count: nat, x: T)
    requires i <= count < a.Length
    modifies a
    ensures a[..count + 1] == Opened(old(a[..count]), i, x)
  {
    var k := count;
    while k > i
      invariant i <= k <= count
      invariant forall j :: 0 <= j < k ==> a[j] == old(a[j])
      invariant forall j :: k < j <= count ==> a[j] == old(a[j - 1])
    {
      a[k] := a[k - 1];
      k := k - 1;
    }
    a[i] := x;
  }

  lemma OpenedRows(certs: seq<seq<byte>>, lengths: seq<int>, keys: seq<int>, ids: seq<seq<byte>>, i: nat, c: Cert)
    requires |certs| == |lengths| == |keys| == |ids| && i <= |certs|
    ensures RowsOf(Opened(certs, i, c.der), Opened(lengths, i, c.length), Opened(keys, i, c.key), Opened(ids, i, c.id))
         == Opened(RowsOf(certs, lengths, keys, ids), i, c)
  {
  }

  lemma PositionStep(l: seq<Cert>, id: seq<byte>, i: nat, less: Less)
    requires i < |l|
    ensures Position(l[i..], id, less) == if less(id, l[i].id) then 0 else 1 + Position(l[i + 1..], id, less)
  {
    assert l[i..][0] == l[i] && l[i..][1..] == l[i + 1..];
  }

  /** The search for the position, over the IDs alone. */
  method FindPlace(ids: array<seq<byte>>, count: nat, id: seq<byte>, less: Less, ghost rows: seq<Cert>) returns (i: nat)
    requires |rows| == count <= ids.Length && forall k :: 0 <= k < count ==> rows[k].id == ids[k]
    ensures i == Position(rows, id, less)
  {
    i := 0;
    assert rows[0..] == rows;
    while i < count
      invariant i <= count
      invariant Position(rows, id, less) == i + Position(rows[i..], id, less)
    {
      PositionStep(rows, id, i, less);
      if less(id, ids[i]) {
        return;
      }
      i := i + 1;
    }
  }

  /** The same gap in all four arrays. */
  method PutRow(certs: array<seq<byte>>, lengths: array<int>, keys: array<int>, ids: array<seq<byte>>, i: nat,
                count: nat, c: Cert)
    requires i <= count < certs.Length && certs.Length == lengths.Length == keys.Length == ids.Length
    requires certs != ids && lengths != keys
    modifies certs, lengths, keys, ids
    ensures certs[..count + 1] == Opened(old(certs[..count]), i, c.der)
    ensures lengths[..count + 1] == Opened(old(lengths[..count]), i, c.length)
    ensures keys[..count + 1] == Opened(old(keys[..count]), i, c.key)
    ensures ids[..count + 1] == Opened(old(ids[..count]), i, c.id)
  {
    PutAt(certs, i, count, c.der);
    PutAt(lengths, i, count, c.length);
    PutAt(keys, i, count, c.key);
    PutAt(ids, i, count, c.id);
  }

  /** One accepted certificate: the same position in all four arrays. */
  method Place(certs: array<seq<byte>>, lengths: array<int>, keys: array<int>, ids: array<seq<byte>>, count: nat,
               c: Cert, less: Less)
    requires count < certs.Length && certs.Length == lengths.Length == keys.Length == ids.Length
    requires certs != ids && lengths != keys
    modifies certs, lengths, keys, ids
    ensures Rows(certs, lengths, keys, ids, count + 1) == Insert(old(Rows(certs, lengths, keys, ids, count)), c, less)
  {
    var i := FindPlace(ids, count, c.id, less, Rows(certs, lengths, keys, ids, count));
    ghost var cs, ls, ks, js := certs[..count], lengths[..count], keys[..count], ids[..count];
    PutRow(certs, lengths, keys, ids, i, count, c);
    OpenedRows(cs, ls, ks, js, i, c);
  }

  /** The objects whose value, ID and certificate could all be read. */
  function Accepted(objects: seq<Option<Cert>>): (l: seq<Cert>)
    ensures |l| <= |objects|
  {
    if objects == [] then []
    else
      var n := |objects| - 1;
      Accepted(objects[..n]) + if objects[n].Some? then [objects[n].value] else []
  }

  /** What is accepted: row by row, a certificate that could be read is kept and everything else is left out. */
  lemma {:induction false} AcceptedIs(a: seq<Option<Cert>>, b: seq<Option<Cert>>, c: Cert)
    ensures Accepted(a + b) == Accepted(a) + Accepted(b)
    ensures Accepted([Some(c)]) == [c] && Accepted([None]) == []
  {
    var one: seq<Option<Cert>>, none: seq<Option<Cert>> := [Some(c)], [None];
    assert one[..0] == [] && none[..0] == [];
    assert Accepted([]) == [];
    if b == [] {
      assert a + b == a;
    } else {
      var n := |b| - 1;
      AcceptedIs(a, b[..n], c);
      assert (a + b)[..|a + b| - 1] == a + b[..n] && (a + b)[|a + b| - 1] == b[n];
    }
  }

  /** The loop over the token's objects: whatever they are, row by row the arrays end as the one stable sort of
    * the accepted certificates, each with its own length, key and ID. */
  method MirrorCerts(objects: seq<Option<Cert>>, less: Less)
    returns (certs: array<seq<byte>>, lengths: array<int>, keys: array<int>, ids: array<seq<byte>>, count: nat)
    ensures certs.Length == lengths.Length == keys.Length == ids.Length == |objects| && count <= |objects|
    ensures Rows(certs, lengths, keys, ids, count) == InsertAll(Accepted(objects), less)
    ensures Orders(less) ==> StableSort(Rows(certs, lengths, keys, ids, count), Accepted(objects), less)
  {
    hide InsertAll, Insert, Accepted, StableSort;
    certs := new seq<byte>[|objects|];
    lengths := new int[|objects|];
    keys := new int[|objects|];
    ids := new seq<byte>[|objects|];
    count := 0;
    NothingYet(objects, less);
    for n := 0 to |objects|
      invariant count <= n
      invariant Rows(certs, lengths, keys, ids, count) == InsertAll(Accepted(objects[..n]), less)
    {
      AcceptedStep(objects, n);
      if objects[n].None? {
        continue;
      }
      var c := objects[n].value;
      InsertAllSnoc(Accepted(objects[..n]), c, less);
      Place(certs, lengths, keys, ids, count, c, less);
      count := count + 1;
    }
    assert objects[..|objects|] == objects;
    if Orders(less) {
      InsertAllSorts(Accepted(objects), less);
    }
  }

  lemma NothingYet(objects: seq<Option<Cert>>, less: Less)
    ensures InsertAll(Accepted(objects[..0]), less) == []
  {
  }

  lemma AcceptedStep(objects: seq<Option<Cert>>, n: nat)
    requires n < |objects|
    ensures Accepted(objects[..n + 1]) == Accepted(objects[..n]) + if objects[n].Some? then [objects[n].value] else []
    ensures objects[n].None? ==> Accepted(objects[..n + 1]) == Accepted(objects[..n])
  {
    assert objects[..n + 1][..n] == objects[..n];
  }
}
