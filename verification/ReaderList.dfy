/** Lists of readers (src/vreader.c): doubly linked entries, each holding a reference to its reader. */
module ReaderList {
  class Reader {
    var references: nat
    var id: nat

    /** vreader_new */
    constructor ()
      ensures references == 1 && id == UNDEFINED
    {
      references, id := 1, UNDEFINED;
    }

    /** vreader_reference */
    method Reference()
      modifies this`references
      ensures references == old(references) + 1
    {
      references := references + 1;
    }

    /** vreader_free: the reader is gone when its last reference is. */
    method Free()
      requires references > 0
      modifies this`references
      ensures references == old(references) - 1
    {
      references := references - 1;
    }
  }

  const UNDEFINED := 0xffff_ffff

  class Entry {
    var next: Entry?
    var prev: Entry?
    const reader: Reader

    /** vreader_list_entry_new */
    constructor (reader: Reader)
      modifies reader`references
      ensures this.reader == reader && next == null && prev == null
      ensures reader.references == old(reader.references) + 1
    {
      this.reader, next, prev := reader, null, null;
      new;
      reader.Reference();
    }
  }

  ghost function At(s: seq<Entry>, i: int): Entry? {
    if 0 <= i < |s| then s[i] else null
  }

  predicate Distinct(s: seq<Entry>) {
    forall i, j :: 0 <= i < j < |s| ==> s[i] != s[j]
  }

  /** Every entry of the row but one points at the next. */
  ghost predicate Nexts(s: seq<Entry>, but: Entry?)
    reads (set e | e in s && e != but)`next
  {
    forall i :: 0 <= i < |s| && s[i] != but ==> s[i].next == At(s, i + 1)
  }

  /** Every entry of the row but one points back at the one before. */
  ghost predicate Prevs(s: seq<Entry>, but: Entry?)
    reads (set e | e in s && e != but)`prev
  {
    forall i :: 0 <= i < |s| && s[i] != but ==> s[i].prev == At(s, i - 1)
  }

  /** The readers of a row of entries. */
  function Readers(s: seq<Entry>): (r: seq<Reader>)
    ensures |r| == |s|
  {
    seq(|s|, i requires 0 <= i < |s| => s[i].reader)
  }

  /** How many references the row holds to a reader. */
  function Held(readers: seq<Reader>, r: Reader): nat {
    if readers == [] then 0 else Held(readers[..|readers| - 1], r) + if readers[|readers| - 1] == r then 1 else 0
  }

  class List {
    var head: Entry?
    var tail: Entry?

    /** The list is exactly `s`, forwards and backwards. */
    ghost predicate Is(s: seq<Entry>)
      reads this, s
    {
      && head == At(s, 0) && tail == At(s, |s| - 1)
      && Distinct(s) && Nexts(s, null) && Prevs(s, null)
    }

    /** vreader_list_new */
    constructor ()
      ensures Is([])
    {
      head, tail := null, null;
    }

    /** vreader_queue */
    method Queue(entry: Entry, ghost s: seq<Entry>)
      requires Is(s) && entry !in s
      modifies this, entry, s
      ensures Is(s + [entry])
    {
      hide Nexts, Prevs;
      NextsApart(s, tail);
      entry.next := null;
      entry.prev := tail;
      if head != null {
        tail.next := entry;
      } else {
        head := entry;
      }
      tail := entry;
      DistinctSnoc(s, entry);
      NextsSnoc(s, entry);
      PrevsSnoc(s, entry);
    }

    /** The branch of vreader_dequeue for an entry with neighbours on both sides. */
    method Unlink(entry: Entry, ghost s: seq<Entry>, ghost i: nat)
      requires Is(s) && 0 < i < |s| - 1 && s[i] == entry
      modifies s
      ensures Is(s[..i] + s[i + 1..])
      ensures entry.next == old(entry.next) && entry.prev == old(entry.prev)
    {
      hide Nexts, Prevs, Distinct;
      ghost var t := s[..i] + s[i + 1..];
      Without(s, i);
      DistinctWithout(s, i);
      NextsWithout(s, i);
      PrevsWithout(s, i);
      entry.prev.next := entry.next;
      entry.next.prev := entry.prev;
      NextsMended(t, i - 1);
      PrevsMended(t, i);
    }

    /** What the list says about one entry and its neighbours. */
    lemma Around(s: seq<Entry>, i: nat)
      requires Is(s) && i < |s|
      ensures head == s[0] && tail == s[|s| - 1] && s[i] !in s[..i] + s[i + 1..]
      ensures s[i].next == At(s, i + 1) && s[i].prev == At(s, i - 1)
      ensures i > 0 ==> s[i - 1].next == s[i] && s[i - 1] != s[i]
      ensures i < |s| - 1 ==> s[i + 1].prev == s[i] && s[i + 1] != s[i]
    {
      DistinctWithout(s, i);
    }

    lemma NothingLeft()
      requires head == null && tail == null
      ensures Is([])
    {
    }

    /** vreader_dequeue takes an entry out of the list properly exactly when it has neighbours on both sides or
      * on neither: otherwise the neighbour that is left still points at it. */
    method Dequeue(entry: Entry, ghost s: seq<Entry>, ghost i: nat)
      requires Is(s) && i < |s| && s[i] == entry
      modifies this, s
      ensures entry.next == null && entry.prev == null
      ensures Is(s[..i] + s[i + 1..]) <==> |s| == 1 || 0 < i < |s| - 1
      ensures i == |s| - 1 && i > 0 ==> head == s[0] && tail == s[i - 1] && s[i - 1].next == entry
      ensures i == 0 && |s| > 1 ==> head == s[1] && tail == s[|s| - 1] && s[1].prev == entry
    {
      hide Is;
      ghost var t := s[..i] + s[i + 1..];
      Without(s, i);
      Around(s, i);
      if entry.next == null {
        tail := entry.prev;
      } else if entry.prev == null {
        head := entry.next;
      } else {
        Unlink(entry, s, i);
        Around(t, 0);
      }
      if tail == null || head == null {
        head, tail := null, null;
      }
      entry.next, entry.prev := null, null;
      if |s| == 1 {
        NothingLeft();
      } else if i == 0 {
        StalePointer(t, 0, entry);
      } else if i == |s| - 1 {
        StalePointer(t, i - 1, entry);
      } else {
        assert Is(t);
      }
    }

    lemma StalePointer(t: seq<Entry>, k: nat, entry: Entry)
      requires k < |t| && entry !in t
      requires (t[k].next == entry && k == |t| - 1) || (t[k].prev == entry && k == 0)
      ensures !Is(t)
    {
    }

    /** One round of vreader_copy_list: two references are taken, one is given back. */
    method AppendReader(reader: Reader, ghost c: seq<Entry>) returns (entry: Entry)
      requires Is(c)
      modifies this, c, reader`references
      ensures fresh(entry) && entry.reader == reader && Is(c + [entry])
      ensures reader.references == old(reader.references) + 1
    {
      reader.Reference();
      entry := new Entry(reader);
      reader.Free();
      Queue(entry, c);
    }

    /** vreader_copy_list: the same readers in the same order, each referenced once more per entry. */
    method Copy(ghost s: seq<Entry>, ghost all: set<Reader>) returns (copy: List, ghost c: seq<Entry>)
      requires Is(s) && forall e :: e in s ==> e.reader in all
      modifies all`references
      ensures fresh(copy) && copy.Is(c) && (forall k :: 0 <= k < |c| ==> fresh(c[k]))
      ensures Is(s) && Readers(c) == Readers(s)
      ensures forall r :: r in all ==> r.references == old(r.references) + Held(Readers(s), r)
    {
      hide Is, Held;
      copy := new List();
      c := [];
      Walked(s, 0);
      HeldNone(Readers(s));
      var current := head;
      ghost var i := 0;
      while current != null
        invariant 0 <= i <= |s| && current == At(s, i)
        invariant Is(s)
        invariant fresh(copy) && copy.Is(c) && forall k :: 0 <= k < |c| ==> fresh(c[k])
        invariant Readers(c) == Readers(s)[..i]
        invariant forall r :: r in all ==> r.references == old(r.references) + Held(Readers(s)[..i], r)
        decreases |s| - i
      {
        HasReader(s, i);
        HeldStep(Readers(s), i);
        Walked(s, i);
        var entry := copy.AppendReader(current.reader, c);
        Snoc(c, entry);
        c := c + [entry];
        current := current.next;
        i := i + 1;
      }
      assert Readers(s)[..|s|] == Readers(s);
    }

    lemma Walked(s: seq<Entry>, i: nat)
      requires Is(s)
      ensures head == At(s, 0)
      ensures i < |s| ==> s[i].next == At(s, i + 1)
    {
    }

    /** vreader_list_delete: every entry gives its reference back. */
    method Delete(ghost s: seq<Entry>, ghost all: set<Reader>)
      requires Is(s) && (forall e :: e in s ==> e.reader in all)
      requires forall r :: r in all ==> r.references >= Held(Readers(s), r)
      modifies all`references
      ensures forall r :: r in all ==> r.references == old(r.references) - Held(Readers(s), r)
    {
      hide Is;
      Walked(s, 0);
      var current := head;
      ghost var i := 0;
      while current != null
        invariant 0 <= i <= |s| && current == At(s, i) && Is(s)
        invariant forall r :: r in all ==> r.references == old(r.references) - Held(Readers(s)[..i], r)
        decreases |s| - i
      {
        HasReader(s, i);
        HeldStep(Readers(s), i);
        HeldGrows(Readers(s), i + 1, current.reader);
        Walked(s, i);
        var next := current.next;
        current.reader.Free();
        current := next;
        i := i + 1;
      }
      assert Readers(s)[..|s|] == Readers(s);
    }

    /** vreader_get_reader_by_id: the first reader with the id, referenced once more; nobody else's count moves. */
    method ReaderById(id: nat, ghost s: seq<Entry>, ghost all: set<Reader>) returns (reader: Reader?)
      requires Is(s) && forall e :: e in s ==> e.reader in all
      modifies all`references
      ensures reader == FirstWithId(s, id)
      ensures reader != null ==> exists i: nat :: IsFirst(s, id, i) && reader == s[i].reader
      ensures reader == null <==> id == 0xffff_ffff || forall k :: 0 <= k < |s| ==> s[k].reader.id != id
      ensures forall r :: r in all ==> r.references == old(r.references) + if r == reader then 1 else 0
    {
      hide Is, IsFirst;
      FoundIsFirst(s, id);
      reader := null;
      if id == UNDEFINED {
        return;
      }
      Walked(s, 0);
      assert s[0..] == s;
      var current := head;
      ghost var i := 0;
      while current != null
        invariant 0 <= i <= |s| && current == At(s, i) && Is(s)
        invariant FirstWithId(s, id) == FirstWithId(s[i..], id)
        invariant forall r :: r in all ==> r.references == old(r.references)
        decreases |s| - i
      {
        HasReader(s, i);
        Walked(s, i);
        assert s[i..][0] == s[i] && s[i..][1..] == s[i + 1..];
        var creader := current.reader;
        creader.Reference();
        if creader.id == id {
          reader := creader;
          return;
        }
        creader.Free();
        current := current.next;
        i := i + 1;
      }
    }
  }

  /** The first reader of the row with the id; the undefined id belongs to nobody. */
  ghost function FirstWithId(s: seq<Entry>, id: nat): Reader?
    reads (set e | e in s :: e.reader)`id
  {
    if s == [] || id == UNDEFINED then null
    else if s[0].reader.id == id then s[0].reader
    else FirstWithId(s[1..], id)
  }

  /** The entry at `i` is the first whose reader has the id. */
  ghost predicate IsFirst(s: seq<Entry>, id: nat, i: nat)
    reads (set e | e in s :: e.reader)`id
  {
    i < |s| && s[i].reader.id == id && forall k :: 0 <= k < i ==> s[k].reader.id != id
  }

  /** The search finds the reader of the first entry with the id; it finds nobody exactly when no entry has the id, or
    * when the id is the undefined one. */
  lemma {:induction false} FoundIsFirst(s: seq<Entry>, id: nat)
    ensures FirstWithId(s, id) == null <==> id == 0xffff_ffff || forall k :: 0 <= k < |s| ==> s[k].reader.id != id
    ensures FirstWithId(s, id) != null ==> exists i: nat :: IsFirst(s, id, i) && FirstWithId(s, id) == s[i].reader
  {
    if s != [] && id != UNDEFINED {
      FoundIsFirst(s[1..], id);
      assert forall k :: 0 < k < |s| ==> s[k] == s[1..][k - 1];
      if s[0].reader.id == id {
        assert IsFirst(s, id, 0);
      } else if FirstWithId(s[1..], id) != null {
        var i: nat :| IsFirst(s[1..], id, i) && FirstWithId(s[1..], id) == s[1..][i].reader;
        assert IsFirst(s, id, i + 1);
      }
    }
  }

  lemma Snoc(c: seq<Entry>, e: Entry)
    ensures Readers(c + [e]) == Readers(c) + [e.reader]
  {
  }

  lemma Without(s: seq<Entry>, i: nat)
    requires i < |s|
    ensures var t := s[..i] + s[i + 1..];
            && |t| == |s| - 1
            && forall k :: 0 <= k < |t| ==> t[k] == s[if k < i then k else k + 1]
  {
  }

  lemma DistinctWithout(s: seq<Entry>, i: nat)
    requires i < |s| && Distinct(s)
    ensures s[i] !in s[..i] + s[i + 1..] && Distinct(s[..i] + s[i + 1..])
    ensures 0 < i < |s| - 1 ==> s[i - 1] != s[i] && s[i + 1] != s[i]
  {
  }

  /** Without the entry, only its neighbours' pointers are wrong. */
  lemma NextsWithout(s: seq<Entry>, i: nat)
    requires 0 < i < |s| - 1 && Nexts(s, null)
    ensures var t := s[..i] + s[i + 1..];
            s[i].next == t[i] && Nexts(t, t[i - 1])
  {
    Without(s, i);
    var t := s[..i] + s[i + 1..];
    forall k | 0 <= k < |t| && t[k] != t[i - 1] ensures t[k].next == At(t, k + 1) {
      var j := if k < i then k else k + 1;
      assert s[j].next == At(s, j + 1);
    }
  }

  lemma PrevsWithout(s: seq<Entry>, i: nat)
    requires 0 < i < |s| - 1 && Prevs(s, null)
    ensures var t := s[..i] + s[i + 1..];
            s[i].prev == t[i - 1] && Prevs(t, t[i])
  {
    Without(s, i);
    var t := s[..i] + s[i + 1..];
    forall k | 0 <= k < |t| && t[k] != t[i] ensures t[k].prev == At(t, k - 1) {
      var j := if k < i then k else k + 1;
      assert s[j].prev == At(s, j - 1);
    }
  }

  lemma NextsMended(t: seq<Entry>, i: nat)
    requires i < |t| && Distinct(t) && Nexts(t, t[i]) && t[i].next == At(t, i + 1)
    ensures Nexts(t, null)
  {
  }

  lemma PrevsMended(t: seq<Entry>, i: nat)
    requires i < |t| && Distinct(t) && Prevs(t, t[i]) && t[i].prev == At(t, i - 1)
    ensures Prevs(t, null)
  {
  }

  lemma DistinctSnoc(s: seq<Entry>, entry: Entry)
    requires Distinct(s) && entry !in s
    ensures Distinct(s + [entry])
  {
  }

  lemma NextsApart(s: seq<Entry>, last: Entry?)
    requires Nexts(s, null)
    ensures Nexts(s, last)
  {
  }

  lemma NextsSnoc(s: seq<Entry>, entry: Entry)
    requires Distinct(s) && Nexts(s, At(s, |s| - 1)) && (s != [] ==> s[|s| - 1].next == entry) && entry.next == null
    ensures Nexts(s + [entry], null)
  {
  }

  lemma PrevsSnoc(s: seq<Entry>, entry: Entry)
    requires Prevs(s, null) && entry.prev == At(s, |s| - 1)
    ensures Prevs(s + [entry], null)
  {
  }

  lemma HasReader(s: seq<Entry>, i: nat)
    requires i < |s|
    ensures Readers(s)[i] == s[i].reader && s[i].reader in Readers(s)
  {
    assert Readers(s)[i] == s[i].reader;
  }

  lemma HeldNone(readers: seq<Reader>)
    ensures forall r :: Held(readers[..0], r) == 0
  {
  }

  lemma HeldStep(readers: seq<Reader>, i: nat)
    requires i < |readers|
    ensures forall r :: Held(readers[..i + 1], r) == Held(readers[..i], r) + if readers[i] == r then 1 else 0
  {
    assert readers[..i + 1][..i] == readers[..i];
  }

  lemma {:induction false} HeldGrows(readers: seq<Reader>, i: nat, r: Reader)
    requires i <= |readers|
    ensures Held(readers[..i], r) <= Held(readers, r)
    decreases |readers|
  {
    if i < |readers| {
      var n := |readers| - 1;
      HeldGrows(readers[..n], i, r);
      assert readers[..n][..i] == readers[..i];
    } else {
      assert readers[..i] == readers;
    }
  }
}
