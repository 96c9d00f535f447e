/** The paged emitter: a ring of equally sized pages used as a double-ended queue of bytes. Its
    contents are a space of the builder's addresses: what was prepended lies below 0, what was
    appended from 0 on. */
module Emitter {
  import opened FlatBytes
  import opened Wrappers
  import opened FlatGraph
  import opened FlatEmission

  // ------------------------------------------------------- what the pages must hold

  /** A page's address and bytes. */
  datatype Held = Held(offset: int, bytes: seq<byte>)

  /** Wherever the page's addresses fall into the space it holds the space's bytes. */
  ghost predicate Holds(h: Held, sp: Space)
  {
    forall j | 0 <= j < |h.bytes| && sp.start <= h.offset + j < sp.End() ::
      h.bytes[j] == sp.bytes[h.offset + j - sp.start]
  }

  /** Pages 0 to `last` hold the space, one after the other, with room left at both ends. */
  ghost predicate Layout(held: seq<Held>, last: nat, frontLeft: nat, backLeft: nat, size: nat, sp: Space)
  {
    && last < |held| && frontLeft <= size && backLeft <= size
    && held[0].offset + frontLeft == sp.start && held[last].offset + size - backLeft == sp.End()
    && (forall i | 0 <= i < |held| :: |held[i].bytes| == size)
    && (forall i | 0 <= i < last :: held[i + 1].offset == held[i].offset + size)
    && (forall i, j | 0 <= i < j <= last :: held[i].offset + size <= held[j].offset)
    && (forall i | 0 <= i <= last :: Holds(held[i], sp))
  }

  /** `bytes` with `data` written at `at`. */
  function Written(bytes: seq<byte>, at: nat, data: seq<byte>): (w: seq<byte>)
    requires at + |data| <= |bytes|
    ensures |w| == |bytes|
  {
    bytes[..at] + data + bytes[at + |data|..]
  }

  function Prepend(sp: Space, data: seq<byte>): Space
  {
    Space(sp.start - |data|, data + sp.bytes)
  }

  function Append(sp: Space, data: seq<byte>): Space
  {
    Space(sp.start, sp.bytes + data)
  }

  lemma LayoutBounds(held: seq<Held>, last: nat, frontLeft: nat, backLeft: nat, size: nat, sp: Space)
    requires Layout(held, last, frontLeft, backLeft, size, sp)
    ensures |held[0].bytes| == |held[last].bytes| == size
    ensures last == 0 ==> frontLeft + |sp.bytes| + backLeft == size
    ensures last > 0 ==> size - frontLeft + size - backLeft <= |sp.bytes|
  {
  }

  lemma WriteFront(held: seq<Held>, last: nat, frontLeft: nat, backLeft: nat, size: nat, sp: Space, data: seq<byte>)
    requires Layout(held, last, frontLeft, backLeft, size, sp) && |data| <= frontLeft && |held[0].bytes| == size
    ensures var h := held[0].(bytes := Written(held[0].bytes, frontLeft - |data|, data));
      Layout(held[0 := h], last, frontLeft - |data|, backLeft, size, Prepend(sp, data))
  {
    var h := held[0].(bytes := Written(held[0].bytes, frontLeft - |data|, data));
    var held' := held[0 := h];
    forall i | 0 <= i <= last ensures Holds(held'[i], Prepend(sp, data)) {
      assert Holds(held[i], sp);
    }
  }

  lemma WriteBack(held: seq<Held>, last: nat, frontLeft: nat, backLeft: nat, size: nat, sp: Space, data: seq<byte>)
    requires Layout(held, last, frontLeft, backLeft, size, sp) && |data| <= backLeft && |held[last].bytes| == size
    ensures var h := held[last].(bytes := Written(held[last].bytes, size - backLeft, data));
      Layout(held[last := h], last, frontLeft, backLeft - |data|, size, Append(sp, data))
  {
    var h := held[last].(bytes := Written(held[last].bytes, size - backLeft, data));
    var held' := held[last := h];
    forall i | 0 <= i <= last ensures Holds(held'[i], Append(sp, data)) {
      assert Holds(held[i], sp);
    }
  }

  /** A page put in front of a full one. */
  lemma PageInFront(held: seq<Held>, m: nat, last: nat, backLeft: nat, size: nat, sp: Space, h: Held)
    requires Layout(held, last, 0, backLeft, size, sp) && last < m <= |held|
    requires |h.bytes| == size && h.offset == held[0].offset - size
    ensures Layout([h] + held[..m], last + 1, size, backLeft, size, sp)
  {
    var held' := [h] + held[..m];
    forall i | 0 <= i <= last + 1 ensures Holds(held'[i], sp) {
      if i > 0 { assert held'[i] == held[i - 1]; }
    }
    forall i, j | 0 <= i < j <= last + 1 ensures held'[i].offset + size <= held'[j].offset {
      assert held'[j] == held[j - 1];
      if i > 0 { assert held'[i] == held[i - 1]; }
    }
  }

  /** A page that follows a full one. */
  lemma PageBehind(held: seq<Held>, last: nat, frontLeft: nat, size: nat, sp: Space, held': seq<Held>)
    requires Layout(held, last, frontLeft, 0, size, sp) && |held'| > last + 1
    requires forall i | 0 <= i <= last :: held'[i] == held[i]
    requires forall i | 0 <= i < |held'| :: |held'[i].bytes| == size
    requires held'[last + 1].offset == held[last].offset + size
    ensures Layout(held', last + 1, frontLeft, size, size, sp)
  {
    forall i | 0 <= i <= last + 1 ensures Holds(held'[i], sp) {
      if i <= last { assert Holds(held[i], sp); }
    }
    forall i, j | 0 <= i < j <= last + 1 ensures held'[i].offset + size <= held'[j].offset {
      if j <= last { assert held[i].offset + size <= held[j].offset; }
      else if i < last { assert held[i].offset + size <= held[last].offset; }
    }
  }

  lemma UnusedAdded(held: seq<Held>, last: nat, frontLeft: nat, backLeft: nat, size: nat, sp: Space, h: Held)
    requires Layout(held, last, frontLeft, backLeft, size, sp) && |h.bytes| == size
    ensures Layout(held + [h], last, frontLeft, backLeft, size, sp)
  {
  }

  lemma OnePage(held: seq<Held>, size: nat)
    requires held != [] && held[0].offset == -(size / 2)
    requires forall i | 0 <= i < |held| :: |held[i].bytes| == size
    ensures Layout(held, 0, size / 2, size - size / 2, size, Space(0, []))
  {
  }

  /** Every address of the space is found in the used page whose offset is next below it. */
  lemma {:induction false} PageOfAddress(held: seq<Held>, last: nat, frontLeft: nat, backLeft: nat, size: nat,
      sp: Space, a: int) returns (i: nat)
    requires Layout(held, last, frontLeft, backLeft, size, sp) && sp.start <= a < sp.End()
    ensures i <= last && 0 <= a - held[i].offset < size == |held[i].bytes|
    ensures held[i].bytes[a - held[i].offset] == sp.bytes[a - sp.start]
  {
    hide Holds;
    i := 0;
    while a >= held[i].offset + size
      invariant i <= last && held[i].offset <= a
      decreases last - i
    {
      assert i < last;
      i := i + 1;
    }
    HeldByte(held[i], sp, a);
  }

  lemma HeldRange(h: Held, sp: Space, lo: nat, n: nat)
    requires Holds(h, sp) && lo + n <= |h.bytes| && sp.start <= h.offset + lo && h.offset + lo + n <= sp.End()
    ensures h.bytes[lo..lo + n] == sp.bytes[h.offset + lo - sp.start..h.offset + lo + n - sp.start]
  {
  }

  /** What page `i` contributes to the contents, from `lo` on. */
  lemma PagePart(held: seq<Held>, last: nat, frontLeft: nat, backLeft: nat, size: nat, sp: Space, i: nat, lo: nat,
      n: nat)
    requires Layout(held, last, frontLeft, backLeft, size, sp) && i <= last && lo + n <= size
    requires i == 0 ==> frontLeft <= lo
    requires i == last ==> lo + n <= size - backLeft
    ensures |held[i].bytes| == size && 0 <= held[i].offset + lo - sp.start &&
      held[i].offset + lo + n - sp.start <= |sp.bytes|
    ensures held[i].bytes[lo..lo + n] == sp.bytes[held[i].offset + lo - sp.start..held[i].offset + lo + n - sp.start]
    ensures i < last ==> held[i + 1].offset == held[i].offset + size
  {
    hide Holds;
    HeldRange(held[i], sp, lo, n);
  }

  lemma HeldByte(h: Held, sp: Space, a: int)
    requires Holds(h, sp) && sp.start <= a < sp.End() && 0 <= a - h.offset < |h.bytes|
    ensures h.bytes[a - h.offset] == sp.bytes[a - sp.start]
  {
  }

  // ------------------------------------------------------------------------ the ring

  class Page {
    const bytes: array<byte>
    var next: Page
    var prev: Page
    var offset: int

    constructor (size: nat)
      ensures fresh(bytes) && bytes.Length == size && next == this && prev == this
    {
      bytes := new byte[size];
      next, prev, offset := this, this, 0;
    }
  }

  /** The pages in ring order: each is linked to the next and back again. */
  ghost predicate Linked(ring: seq<Page>)
    reads ring`next, ring`prev
  {
    var n := |ring|;
    forall i | 0 <= i < n :: ring[i].next == ring[if i + 1 == n then 0 else i + 1] &&
      ring[i].prev == ring[if i == 0 then n - 1 else i - 1]
  }

  ghost predicate Distinct(ring: seq<Page>)
  {
    forall i, j | 0 <= i < j < |ring| :: ring[i] != ring[j] && ring[i].bytes != ring[j].bytes
  }

  /** What the pages hold; `arrays` lists their byte arrays. */
  ghost predicate Mirrors(ring: seq<Page>, arrays: seq<array<byte>>, held: seq<Held>)
    reads ring`offset, arrays
  {
    && |ring| == |arrays| == |held|
    && forall i | 0 <= i < |ring| ::
      ring[i].bytes == arrays[i] && arrays[i][..] == held[i].bytes &&
      ring[i].offset == held[i].offset
  }

  ghost predicate Owned(ring: seq<Page>, arrays: seq<array<byte>>, repr: set<object>)
  {
    (forall p | p in ring :: p in repr) && (forall a | a in arrays :: a in repr)
  }

  /** A ring may be listed from its last page. */
  lemma Rotated(ring: seq<Page>)
    requires Linked(ring) && ring != []
    ensures Linked([ring[|ring| - 1]] + ring[..|ring| - 1])
  {
  }

  /** Links a page in between the last page and the first. */
  method LinkPage(p: Page, first: Page, end: Page, ghost ring: seq<Page>)
    requires ring != [] && first == ring[0] && end == ring[|ring| - 1] && Linked(ring) && Distinct(ring) && p !in ring
    modifies p`next, p`prev, first`prev, end`next
    ensures Linked([p] + ring) && Linked(ring + [p])
  {
    ghost var n := |ring|;
    p.prev := end;
    p.next := first;
    first.prev := p;
    end.next := p;
    ghost var longer := ring + [p];
    forall i | 0 <= i < n + 1
      ensures longer[i].next == longer[if i + 1 == n + 1 then 0 else i + 1] &&
        longer[i].prev == longer[if i == 0 then n else i - 1]
    {
      if i < n { assert old(ring[i].next) == ring[if i + 1 == n then 0 else i + 1]; }
      if 0 < i < n { assert ring[i] != ring[0]; }
      if i < n - 1 { assert ring[i] != ring[n - 1]; }
    }
    Rotated(longer);
    assert longer[..n] == ring;
  }

  /** Sets the offset of page `i`. */
  method SetOffset(p: Page, x: int, ghost ring: seq<Page>, ghost arrays: seq<array<byte>>, ghost held: seq<Held>,
      ghost i: nat)
    requires i < |ring| && p == ring[i] && Mirrors(ring, arrays, held) && Distinct(ring)
    modifies p`offset
    ensures p.offset == x && Mirrors(ring, arrays, held[i := held[i].(offset := x)])
  {
    p.offset := x;
  }

  /** The same for what goes with the ring. */
  lemma RotatedToo(ring: seq<Page>, arrays: seq<array<byte>>, held: seq<Held>, repr: set<object>)
    requires ring != [] && |held| == |arrays| == |ring| && Distinct(ring) && Mirrors(ring, arrays, held) &&
      Owned(ring, arrays, repr)
    ensures var n := |ring| - 1;
      var turned := [ring[n]] + ring[..n];
      Distinct(turned) && Mirrors(turned, [arrays[n]] + arrays[..n], [held[n]] + held[..n]) &&
        Owned(turned, [arrays[n]] + arrays[..n], repr)
  {
    var n := |ring| - 1;
    var turned, turnedArrays, turnedHeld := [ring[n]] + ring[..n], [arrays[n]] + arrays[..n], [held[n]] + held[..n];
    forall i, j | 0 <= i < j < |turned| ensures turned[i] != turned[j] && turned[i].bytes != turned[j].bytes {
      assert turned[j] == ring[j - 1];
      if i > 0 { assert turned[i] == ring[i - 1]; }
    }
    forall i | 0 <= i < |turned|
      ensures turned[i].bytes == turnedArrays[i] && turnedArrays[i][..] == turnedHeld[i].bytes &&
        turned[i].offset == turnedHeld[i].offset
    {
      var k := if i == 0 then n else i - 1;
      assert turned[i] == ring[k] && turnedArrays[i] == arrays[k] && turnedHeld[i] == held[k];
    }
  }

  /** A new page at the end of the ring. */
  lemma AddedToo(ring: seq<Page>, arrays: seq<array<byte>>, held: seq<Held>, repr: set<object>, p: Page)
    requires Distinct(ring) && Mirrors(ring, arrays, held) && Owned(ring, arrays, repr) && p !in repr &&
      p.bytes !in repr
    ensures Distinct(ring + [p]) && Mirrors(ring + [p], arrays + [p.bytes], held + [Held(p.offset, p.bytes[..])])
    ensures Owned(ring + [p], arrays + [p.bytes], repr + {p, p.bytes}) && p !in ring
  {
  }

  lemma OwnedOne(p: Page, repr: set<object>)
    requires p in repr && p.bytes in repr
    ensures Owned([p], [p.bytes], repr)
  {
  }

  lemma OneInRing(p: Page)
    requires p.next == p && p.prev == p
    ensures Linked([p]) && Distinct([p]) && Mirrors([p], [p.bytes], [Held(p.offset, p.bytes[..])])
  {
  }

  /** The bytes in `n` pages. */
  ghost predicate IsSizeOf(capacity: nat, size: nat, n: nat)
  {
    capacity == size * n
  }

  lemma SizeOfOneMore(capacity: nat, size: nat, n: nat)
    ensures IsSizeOf(0, size, 0) && (IsSizeOf(capacity, size, n) ==> IsSizeOf(capacity + size, size, n + 1))
    ensures n > 0 && IsSizeOf(capacity, size, n) ==> capacity >= size && IsSizeOf(capacity - size, size, n - 1)
  {
  }

  lemma LinkFacts(ring: seq<Page>, arrays: seq<array<byte>>, held: seq<Held>, i: nat)
    requires i < |ring| && Linked(ring) && Mirrors(ring, arrays, held)
    ensures |held| == |arrays| == |ring| && ring[i].offset == held[i].offset && ring[i].bytes == arrays[i] &&
      arrays[i][..] == held[i].bytes
    ensures ring[i].next == ring[if i + 1 == |ring| then 0 else i + 1]
    ensures ring[i].prev == ring[if i == 0 then |ring| - 1 else i - 1]
  {
  }

  method NewPage(size: nat, ghost ring: seq<Page>, ghost arrays: seq<array<byte>>, ghost held: seq<Held>,
      ghost repr: set<object>) returns (p: Page)
    requires Distinct(ring) && Mirrors(ring, arrays, held) && Owned(ring, arrays, repr)
    ensures fresh(p) && fresh(p.bytes) && p.bytes.Length == size && p !in ring
    ensures Distinct(ring + [p]) && Mirrors(ring + [p], arrays + [p.bytes], held + [Held(p.offset, p.bytes[..])])
    ensures Owned(ring + [p], arrays + [p.bytes], repr + {p, p.bytes})
  {
    hide Distinct, Mirrors, Owned;
    p := new Page(size);
    AddedToo(ring, arrays, held, repr, p);
  }

  method NewFirstPage(size: nat) returns (p: Page, ghost h: Held)
    ensures fresh(p) && fresh(p.bytes)
    ensures Linked([p]) && Distinct([p]) && Mirrors([p], [p.bytes], [h])
    ensures Layout([h], 0, size / 2, size - size / 2, size, Space(0, []))
  {
    p := new Page(size);
    p.offset := -(size / 2);
    h := Held(p.offset, p.bytes[..]);
    OneInRing(p);
    OnePage([h], size);
  }

  function Concat(iov: seq<seq<byte>>): seq<byte>
  {
    if iov == [] then [] else iov[0] + Concat(iov[1..])
  }

  lemma OnePiece(data: seq<byte>)
    ensures Concat([data]) == data
  {
  }

  lemma PrependTwice(sp: Space, a: seq<byte>, b: seq<byte>)
    ensures Prepend(Prepend(sp, b), a) == Prepend(sp, a + b)
  {
  }

  lemma AppendTwice(sp: Space, a: seq<byte>, b: seq<byte>)
    ensures Append(Append(sp, a), b) == Append(sp, a + b)
  {
  }

  lemma {:induction false} ConcatAppend(a: seq<seq<byte>>, b: seq<seq<byte>>)
    ensures Concat(a + b) == Concat(a) + Concat(b)
  {
    if a == [] {
      assert a + b == b;
    } else {
      assert (a + b)[1..] == a[1..] + b;
      ConcatAppend(a[1..], b);
    }
  }

  lemma ConcatNext(iov: seq<seq<byte>>, i: nat)
    requires i < |iov|
    ensures Concat(iov[..i + 1]) == Concat(iov[..i]) + iov[i] && Concat(iov[i..]) == iov[i] + Concat(iov[i + 1..])
  {
    assert iov[..i + 1] == iov[..i] + [iov[i]];
    ConcatAppend(iov[..i], [iov[i]]);
    assert iov[i..][1..] == iov[i + 1..];
  }

  lemma WrittenMore(bytes: seq<byte>, at: nat, a: seq<byte>, b: seq<byte>)
    requires at + |a| + |b| <= |bytes|
    ensures Written(Written(bytes, at, a), at + |a|, b) == Written(bytes, at, a + b)
  {
  }

  /** Copies the pieces one after the other to `at`. */
  method CopyPieces(a: array<byte>, at: nat, iov: seq<seq<byte>>)
    requires at + |Concat(iov)| <= a.Length
    modifies a
    ensures a[..] == Written(old(a[..]), at, Concat(iov))
  {
    hide Written;
    var p, i := at, 0;
    assert a[..] == Written(a[..], at, []) by { NothingWritten(a[..], at); }
    while i < |iov|
      invariant 0 <= i <= |iov| && p == at + |Concat(iov[..i])| && p + |Concat(iov[i..])| <= a.Length
      invariant a[..] == Written(old(a[..]), at, Concat(iov[..i]))
    {
      ConcatNext(iov, i);
      WrittenMore(old(a[..]), at, Concat(iov[..i]), iov[i]);
      CopyBytes(a, p, iov[i]);
      p, i := p + |iov[i]|, i + 1;
    }
    assert iov[..i] == iov;
  }

  lemma NothingWritten(bytes: seq<byte>, at: nat)
    requires at <= |bytes|
    ensures Written(bytes, at, []) == bytes
  {
  }

  method CopyBytes(a: array<byte>, at: nat, data: seq<byte>)
    requires at + |data| <= a.Length
    modifies a
    ensures a[..] == Written(old(a[..]), at, data)
  {
    forall j | 0 <= j < |data| { a[at + j] := data[j]; }
  }

  method CopyRange(a: array<byte>, at: nat, src: array<byte>, lo: nat, n: nat)
    requires at + n <= a.Length && lo + n <= src.Length && a != src
    modifies a
    ensures a[..] == Written(old(a[..]), at, src[lo..lo + n])
  {
    forall j | 0 <= j < n { a[at + j] := src[lo + j]; }
  }

  /** Writes into page `i`; the other pages have arrays of their own. */
  method WritePage(p: Page, at: nat, iov: seq<seq<byte>>, ghost ring: seq<Page>, ghost arrays: seq<array<byte>>,
      ghost held: seq<Held>, ghost i: nat)
    requires i < |ring| && p == ring[i] && Mirrors(ring, arrays, held) && Distinct(ring) && i < |held| &&
      |held[i].bytes| == p.bytes.Length
    requires at + |Concat(iov)| <= p.bytes.Length
    modifies p.bytes
    ensures Mirrors(ring, arrays, held[i := held[i].(bytes := Written(held[i].bytes, at, Concat(iov)))])
  {
    hide Written, Concat;
    CopyPieces(p.bytes, at, iov);
  }

  /** Takes the second page out of the ring. */
  method UnlinkPage(first: Page, ghost ring: seq<Page>)
    requires |ring| > 1 && first == ring[0] && Linked(ring) && Distinct(ring)
    modifies first`next, ring[1].next`prev
    ensures Linked([ring[0]] + ring[2..])
  {
    ghost var n := |ring|;
    var p := first.next;
    first.next := p.next;
    p.next.prev := first;
    ghost var shorter := [ring[0]] + ring[2..];
    forall i | 0 <= i < n - 1
      ensures shorter[i].next == shorter[if i + 1 == n - 1 then 0 else i + 1] &&
        shorter[i].prev == shorter[if i == 0 then n - 2 else i - 1]
    {
      var k := if i == 0 then 0 else i + 1;
      assert shorter[i] == ring[k];
      assert old(ring[k].next) == ring[if k + 1 == n then 0 else k + 1];
      assert old(ring[k].prev) == ring[if k == 0 then n - 1 else k - 1];
      if k > 0 { assert ring[k] != ring[0]; }
      if k > 2 { assert ring[k] != ring[2]; }
    }
  }

  lemma RemovedToo(ring: seq<Page>, arrays: seq<array<byte>>, held: seq<Held>, repr: set<object>)
    requires |ring| > 1 && Distinct(ring) && Mirrors(ring, arrays, held) && Owned(ring, arrays, repr)
    ensures |held| == |arrays| == |ring|
    ensures Distinct([ring[0]] + ring[2..]) && Mirrors([ring[0]] + ring[2..], [arrays[0]] + arrays[2..],
      [held[0]] + held[2..])
    ensures Owned([ring[0]] + ring[2..], [arrays[0]] + arrays[2..], repr)
  {
    var fewer, fewerArrays, fewerHeld := [ring[0]] + ring[2..], [arrays[0]] + arrays[2..], [held[0]] + held[2..];
    forall i, j | 0 <= i < j < |fewer| ensures fewer[i] != fewer[j] && fewer[i].bytes != fewer[j].bytes {
      assert fewer[j] == ring[j + 1];
      if i > 0 { assert fewer[i] == ring[i + 1]; }
    }
    forall i | 0 <= i < |fewer|
      ensures fewer[i].bytes == fewerArrays[i] && fewerArrays[i][..] == fewerHeld[i].bytes &&
        fewer[i].offset == fewerHeld[i].offset
    {
      var k := if i == 0 then 0 else i + 1;
      assert fewer[i] == ring[k] && fewerArrays[i] == arrays[k] && fewerHeld[i] == held[k];
    }
  }

  lemma UnusedRemoved(held: seq<Held>, frontLeft: nat, backLeft: nat, size: nat, sp: Space)
    requires Layout(held, 0, frontLeft, backLeft, size, sp) && |held| > 1
    ensures Layout([held[0]] + held[2..], 0, frontLeft, backLeft, size, sp)
  {
  }

  class Emitter {
    const pageSize: nat
    var front: Page?
    var back: Page?
    var frontCursor: nat
    var frontLeft: nat
    var backCursor: nat
    var backLeft: nat
    var used: nat
    var capacity: nat
    var usedAverage: nat

    /** The pages from the front on, the index of the back page, what the pages hold, and the
        contents since the last reset. */
    ghost var ring: seq<Page>
    ghost var arrays: seq<array<byte>>
    ghost var last: nat
    ghost var held: seq<Held>
    ghost var sp: Space
    ghost var repr: set<object>

    ghost predicate Ring()
      reads this, repr
    {
      && this in repr && Owned(ring, arrays, repr)
      && Linked(ring) && Distinct(ring) && Mirrors(ring, arrays, held) && pageSize > 0
      && (if front == null then NoPages() else Pages()) && IsSizeOf(capacity, pageSize, |ring|)
    }

    ghost predicate NoPages()
      reads this
    {
      ring == [] && back == null && frontLeft == backLeft == 0 && sp == Space(0, [])
    }

    ghost predicate Pages()
      reads this
    {
      && last < |ring| && front == ring[0] && back == ring[last]
      && Layout(held, last, frontLeft, backLeft, pageSize, sp)
      && frontCursor == frontLeft && backCursor + backLeft == pageSize
    }

    ghost predicate Valid()
      reads this, repr
    {
      Ring() && used == |sp.bytes|
    }

    constructor (size: nat)
      requires size > 0
      ensures Valid() && fresh(repr) && sp == Space(0, []) && pageSize == size
    {
      SizeOfOneMore(0, size, 0);
      pageSize := size;
      front, back := null, null;
      frontCursor, frontLeft, backCursor, backLeft := 0, 0, 0, 0;
      used, capacity, usedAverage := 0, 0, 0;
      ring, arrays, last, held, sp, repr := [], [], 0, [], Space(0, []), {this};
    }

    /** Gives each end half of the page they share. */
    method Halve()
      modifies this`frontCursor, this`frontLeft, this`backCursor, this`backLeft
      ensures frontCursor == frontLeft == pageSize / 2 && backCursor == frontLeft && backLeft == pageSize - frontLeft
    {
      frontCursor := pageSize / 2;
      backCursor := frontCursor;
      frontLeft := pageSize / 2;
      backLeft := pageSize - frontLeft;
    }

    lemma Empty()
      requires Ring() && front == null
      ensures sp == Space(0, []) && back == null
    {
    }

    /** The first page, shared between front and back: each gets half of it. */
    method FirstPage()
      requires Ring() && front == null
      modifies this
      ensures Ring() && fresh(repr - old(repr)) && used == old(used) && usedAverage == old(usedAverage)
      ensures sp == old(sp) && front != null && |ring| == 1 && front == back && capacity == old(capacity) + pageSize
      ensures frontLeft == pageSize / 2 && backLeft == pageSize - pageSize / 2
    {
      hide Layout, Linked, Distinct, Mirrors, Owned, IsSizeOf;
      SizeOfOneMore(capacity, pageSize, |ring|);
      capacity := capacity + pageSize;
      Halve();
      var p, h := NewFirstPage(pageSize);
      OwnedOne(p, {this, p, p.bytes});
      front, back := p, p;
      ring, arrays, last, held, repr := [p], [p.bytes], 0, [h], {this, p, p.bytes};
    }

    /** The ends of the ring. */
    lemma Ends()
      requires Ring() && front != null
      ensures ring != [] && |held| == |arrays| == |ring| && last < |ring| && front == ring[0] && back == ring[last]
      ensures front.prev == ring[|ring| - 1] && back.next == ring[if last + 1 == |ring| then 0 else last + 1]
      ensures front.prev == back <==> last + 1 == |ring|
      ensures back.next == front <==> last + 1 == |ring|
      ensures front.offset == held[0].offset && back.offset == held[last].offset
      ensures forall i | 0 <= i < |held| :: |held[i].bytes| == pageSize
      ensures this in repr && (forall i | 0 <= i < |ring| :: ring[i] in repr)
    {
    }

    /** A new page, linked in between the back and the front. */
    method AddPage()
      requires Ring() && front != null && front.prev == back
      modifies this, front`prev, back`next
      ensures Ring() && fresh(repr - old(repr)) && used == old(used) && usedAverage == old(usedAverage)
      ensures sp == old(sp) && last == old(last) && |ring| == old(|ring|) + 1 && fresh(ring[old(|ring|)])
      ensures capacity == old(capacity) + pageSize
      ensures front == old(front) && back == old(back) && frontLeft == old(frontLeft) && backLeft == old(backLeft)
    {
      hide Layout, Linked, Distinct, Mirrors, Owned, IsSizeOf;
      Ends();
      SizeOfOneMore(capacity, pageSize, |ring|);
      var p := NewPage(pageSize, ring, arrays, held, repr);
      UnusedAdded(held, last, frontLeft, backLeft, pageSize, sp, Held(p.offset, p.bytes[..]));
      LinkPage(p, front, back, ring);
      capacity := capacity + pageSize;
      ring, arrays, held := ring + [p], arrays + [p.bytes], held + [Held(p.offset, p.bytes[..])];
      repr := repr + {p, p.bytes};
    }

    method AdvanceFront()
      requires Ring() && frontLeft == 0
      modifies repr
      ensures Ring() && fresh(repr - old(repr)) && used == old(used) && usedAverage == old(usedAverage)
      ensures sp == old(sp) && front != null
      ensures old(front) != null ==> frontLeft == pageSize > 0
    {
      hide Layout, Linked, Distinct, Mirrors, Owned, IsSizeOf;
      if front == null { FirstPage(); return; }
      Ends();
      if front.prev == back { AddPage(); Ends(); }
      FrontToPrevious();
    }

    /** The unused page before the front becomes the front. */
    method FrontToPrevious()
      requires Ring() && frontLeft == 0 && front != null && front.prev != back
      modifies this, front.prev`offset
      ensures Ring() && repr == old(repr) && used == old(used) && usedAverage == old(usedAverage)
      ensures sp == old(sp) && front != null && frontLeft == pageSize
    {
      hide Layout, Linked, Distinct, Mirrors, Owned, IsSizeOf;
      Ends();
      ghost var n := |ring| - 1;
      ghost var h := Held(held[0].offset - pageSize, held[n].bytes);
      ghost var turned, turnedArrays, turnedHeld :=
          [ring[n]] + ring[..n], [arrays[n]] + arrays[..n], [held[n]] + held[..n];
      Rotated(ring);
      RotatedToo(ring, arrays, held, repr);
      PageInFront(held, n, last, backLeft, pageSize, sp, h);
      assert turned[last + 1] == ring[last];
      assert turnedHeld[0 := h] == [h] + held[..n];
      SetOffset(front.prev, front.offset - pageSize, turned, turnedArrays, turnedHeld, 0);
      front := front.prev;
      frontCursor := pageSize;
      frontLeft := pageSize;
      ring, arrays, held, last := turned, turnedArrays, [h] + held[..n], last + 1;
    }

    method AdvanceBack()
      requires Ring() && backLeft == 0
      modifies repr
      ensures Ring() && fresh(repr - old(repr)) && used == old(used) && usedAverage == old(usedAverage)
      ensures sp == old(sp) && back != null && backLeft > 0
    {
      hide Layout, Linked, Distinct, Mirrors, Owned, IsSizeOf;
      if front == null { FirstPage(); return; }
      Ends();
      if back.next == front { AddPage(); Ends(); }
      BackToNext();
    }

    /** The unused page behind the back becomes the back. */
    method BackToNext()
      requires Ring() && backLeft == 0 && back != null && back.next != front
      modifies this, back.next`offset
      ensures Ring() && repr == old(repr) && used == old(used) && usedAverage == old(usedAverage)
      ensures sp == old(sp) && back != null && backLeft == pageSize
    {
      hide Layout, Linked, Distinct, Mirrors, Owned, IsSizeOf;
      Ends();
      ghost var held' := held[last + 1 := held[last + 1].(offset := held[last].offset + pageSize)];
      PageBehind(held, last, frontLeft, pageSize, sp, held');
      back := back.next;
      backCursor := 0;
      backLeft := pageSize;
      LinkFacts(ring, arrays, held, last + 1);
      SetOffset(back, back.prev.offset + pageSize, ring, arrays, held, last + 1);
      held, last := held', last + 1;
    }

    lemma FrontRoom()
      requires Ring() && front != null
      ensures 0 < |ring| == |held| && front == ring[0] && |held[0].bytes| == front.bytes.Length == pageSize
      ensures frontCursor == frontLeft <= pageSize && front.bytes in repr
      ensures Layout(held, last, frontLeft, backLeft, pageSize, sp)
    {
    }

    lemma BackRoom()
      requires Ring() && back != null
      ensures front != null && last < |ring| == |held| && back == ring[last] &&
        |held[last].bytes| == back.bytes.Length == pageSize
      ensures backCursor + backLeft == pageSize && back.bytes in repr
      ensures Layout(held, last, frontLeft, backLeft, pageSize, sp)
    {
    }

    /** Puts the pieces before the contents, where the front page has room for them. */
    method PutFront(iov: seq<seq<byte>>)
      requires Ring() && |Concat(iov)| <= frontLeft
      modifies repr
      ensures Ring() && repr == old(repr) && used == old(used) && usedAverage == old(usedAverage)
      ensures sp == Prepend(old(sp), Concat(iov)) && (front == null <==> old(front) == null) &&
        frontLeft == old(frontLeft) - |Concat(iov)|
    {
      hide Layout, Linked, Distinct, Mirrors, Owned, IsSizeOf, Written, Concat;
      if front == null { assert Prepend(sp, []) == sp; return; }
      FrontRoom();
      var len := |Concat(iov)|;
      WriteFront(held, last, frontLeft, backLeft, pageSize, sp, Concat(iov));
      frontCursor := frontCursor - len;
      frontLeft := frontLeft - len;
      WritePage(front, frontCursor, iov, ring, arrays, held, 0);
      held := held[0 := held[0].(bytes := Written(held[0].bytes, frontLeft, Concat(iov)))];
      sp := Prepend(sp, Concat(iov));
    }

    /** Puts the pieces after the contents, where the back page has room for them. */
    method PutBack(iov: seq<seq<byte>>)
      requires Ring() && |Concat(iov)| <= backLeft
      modifies repr
      ensures Ring() && repr == old(repr) && used == old(used) && usedAverage == old(usedAverage)
      ensures sp == Append(old(sp), Concat(iov)) && (front == null <==> old(front) == null) &&
        backLeft == old(backLeft) - |Concat(iov)|
    {
      hide Layout, Linked, Distinct, Mirrors, Owned, IsSizeOf, Written, Concat;
      if front == null { assert Append(sp, []) == sp; return; }
      BackRoom();
      var len := |Concat(iov)|;
      WriteBack(held, last, frontLeft, backLeft, pageSize, sp, Concat(iov));
      WritePage(back, backCursor, iov, ring, arrays, held, last);
      held := held[last := held[last].(bytes := Written(held[last].bytes, pageSize - backLeft, Concat(iov)))];
      sp := Append(sp, Concat(iov));
      backCursor := backCursor + len;
      backLeft := backLeft - len;
    }

    method CopyFront(data: seq<byte>)
      requires Ring()
      modifies repr
      ensures Ring() && fresh(repr - old(repr)) && used == old(used) && usedAverage == old(usedAverage)
      ensures sp == Prepend(old(sp), data)
    {
      hide Ring, Concat;
      var size := |data|;
      assert Prepend(sp, data[size..]) == sp;
      while size > 0
        invariant 0 <= size <= |data| && Ring() && fresh(repr - old(repr)) && used == old(used) &&
          usedAverage == old(usedAverage)
        invariant sp == Prepend(old(sp), data[size..])
        decreases size, if frontLeft > 0 then 0 else if front != null then 1 else 2
      {
        var k := size;
        if k > frontLeft {
          k := frontLeft;
          if k == 0 {
            InRepr();
            AdvanceFront();
            continue;
          }
        }
        InRepr();
        assert data[size - k..] == data[size - k..size] + data[size..];
        OnePiece(data[size - k..size]);
        PutFront([data[size - k..size]]);
        size := size - k;
      }
      assert data[0..] == data;
    }

    method CopyBack(data: seq<byte>)
      requires Ring()
      modifies repr
      ensures Ring() && fresh(repr - old(repr)) && used == old(used) && usedAverage == old(usedAverage)
      ensures sp == Append(old(sp), data)
    {
      hide Ring, Concat;
      var done := 0;
      assert Append(sp, data[..0]) == sp;
      while done < |data|
        invariant done <= |data| && Ring() && fresh(repr - old(repr)) && used == old(used) &&
          usedAverage == old(usedAverage)
        invariant sp == Append(old(sp), data[..done])
        decreases |data| - done, if backLeft > 0 then 0 else 1
      {
        var k := |data| - done;
        if k > backLeft {
          k := backLeft;
          if k == 0 {
            InRepr();
            AdvanceBack();
            continue;
          }
        }
        InRepr();
        assert data[..done + k] == data[..done] + data[done..done + k];
        OnePiece(data[done..done + k]);
        PutBack([data[done..done + k]]);
        done := done + k;
      }
      assert data[..done] == data;
    }

    lemma InRepr()
      requires Ring()
      ensures this in repr
    {
    }

    /** The emitter function: a negative offset puts the pieces before the contents, any other after. */
    method Emit(iov: seq<seq<byte>>, offset: int, len: nat)
      requires Valid() && len == |Concat(iov)|
      modifies repr
      ensures Valid() && fresh(repr - old(repr)) && usedAverage == old(usedAverage)
      ensures sp == if offset < 0 then Prepend(old(sp), Concat(iov)) else Append(old(sp), Concat(iov))
    {
      hide Ring, Concat;
      InRepr();
      AddUsed(len);
      if offset < 0 {
        if len <= frontLeft { PutFront(iov); return; }
        EmitBefore(iov);
      } else {
        if len <= backLeft { PutBack(iov); return; }
        EmitAfter(iov);
      }
    }

    method AddUsed(len: nat)
      requires Ring()
      modifies this`used
      ensures Ring() && used == old(used) + len
    {
      hide Layout, Linked, Distinct, Mirrors, Owned, IsSizeOf;
      used := used + len;
    }

    /** The last piece first. */
    method EmitBefore(iov: seq<seq<byte>>)
      requires Ring()
      modifies repr
      ensures Ring() && fresh(repr - old(repr)) && used == old(used) && usedAverage == old(usedAverage)
      ensures sp == Prepend(old(sp), Concat(iov))
    {
      hide Ring;
      var i := |iov|;
      assert Prepend(sp, Concat(iov[i..])) == sp;
      while i > 0
        invariant i <= |iov| && Ring() && fresh(repr - old(repr)) && used == old(used) &&
          usedAverage == old(usedAverage)
        invariant sp == Prepend(old(sp), Concat(iov[i..]))
      {
        i := i - 1;
        ConcatNext(iov, i);
        PrependTwice(old(sp), iov[i], Concat(iov[i + 1..]));
        CopyFront(iov[i]);
      }
      assert iov[0..] == iov;
    }

    method EmitAfter(iov: seq<seq<byte>>)
      requires Ring()
      modifies repr
      ensures Ring() && fresh(repr - old(repr)) && used == old(used) && usedAverage == old(usedAverage)
      ensures sp == Append(old(sp), Concat(iov))
    {
      hide Ring;
      var i := 0;
      assert Append(sp, Concat(iov[..0])) == sp;
      while i < |iov|
        invariant i <= |iov| && Ring() && fresh(repr - old(repr)) && used == old(used) &&
          usedAverage == old(usedAverage)
        invariant sp == Append(old(sp), Concat(iov[..i]))
      {
        ConcatNext(iov, i);
        AppendTwice(old(sp), Concat(iov[..i]), iov[i]);
        CopyBack(iov[i]);
        i := i + 1;
      }
      assert iov[..i] == iov;
    }

    lemma PageSizes()
      requires Ring() && front != null
      ensures this in repr && front in repr && forall i | 0 <= i < |held| :: |held[i].bytes| == pageSize
    {
    }

    /** The front page becomes the only page in use, empty and split in halves. */
    method Rewind()
      requires Ring() && front != null
      modifies repr
      ensures Ring() && repr == old(repr) && used == old(used) && usedAverage == old(usedAverage) &&
        capacity == old(capacity)
      ensures sp == Space(0, []) && front == old(front) && back == front && last == 0 && ring == old(ring)
    {
      hide Layout, Linked, Distinct, Mirrors, Owned, IsSizeOf;
      FrontRoom();
      PageSizes();
      ghost var held' := held[0 := held[0].(offset := -(pageSize / 2))];
      OnePage(held', pageSize);
      back := front;
      Halve();
      SetOffset(front, -(frontLeft as int), ring, arrays, held, 0);
      last, held, sp := 0, held', Space(0, []);
    }

    /** Frees the page after the back. */
    method FreeNext()
      requires Ring() && front != null && back == front && last == 0 && back.next != front
      modifies repr
      ensures Ring() && repr == old(repr) && used == old(used) && usedAverage == old(usedAverage)
      ensures sp == old(sp) && front == old(front) && back == front && last == 0
      ensures |old(ring)| > 1 && ring == [old(ring)[0]] + old(ring)[2..] && old(capacity) >= pageSize &&
        capacity == old(capacity) - pageSize
    {
      hide Layout, Linked, Distinct, Mirrors, Owned, IsSizeOf;
      Ends();
      NextInRepr();
      SizeOfOneMore(capacity, pageSize, |ring|);
      RemovedToo(ring, arrays, held, repr);
      UnusedRemoved(held, frontLeft, backLeft, pageSize, sp);
      UnlinkPage(back, ring);
      capacity := capacity - pageSize;
      ring, arrays, held := [ring[0]] + ring[2..], [arrays[0]] + arrays[2..], [held[0]] + held[2..];
    }

    lemma NextInRepr()
      requires Ring() && front != null && |ring| > 1
      ensures ring[1].next in repr
    {
      assert ring[1].next == ring[if 2 == |ring| then 0 else 2];
    }

    lemma OneMeansOne()
      requires Ring() && front != null
      ensures |ring| == 1 ==> capacity == pageSize
    {
    }

    method TakeAverage()
      requires Ring()
      modifies this`used, this`usedAverage
      ensures Ring() && used == 0
      ensures usedAverage == (if old(usedAverage) == 0 then old(used) else old(usedAverage)) * 3 / 4 + old(used) / 4
    {
      hide Layout, Linked, Distinct, Mirrors, Owned, IsSizeOf;
      if usedAverage == 0 { usedAverage := used; }
      usedAverage := usedAverage * 3 / 4 + used / 4;
      used := 0;
    }

    static lemma FreedSoFar(all: seq<Page>, ring: seq<Page>)
      requires 1 <= |ring| <= |all| && ring == [all[0]] + all[|all| - |ring| + 1..]
      ensures |ring| > 1 ==> [ring[0]] + ring[2..] == [all[0]] + all[|all| - |ring| + 2..]
    {
    }

    /** Empties the emitter. The front page stays; pages are freed while the average use is less than
        half of the capacity. */
    method Reset()
      requires Valid()
      modifies repr
      ensures Valid() && repr == old(repr) && sp == Space(0, []) && front == old(front) && back == front
      ensures front != null ==>
        usedAverage == (if old(usedAverage) == 0 then old(used) else old(usedAverage)) * 3 / 4 + old(used) / 4
      ensures front != null ==> capacity <= old(capacity) && (capacity <= usedAverage * 2 || capacity == pageSize)
      ensures front != null && capacity < old(capacity) ==> usedAverage * 2 < capacity + pageSize
      ensures front != null ==>
        1 <= |ring| <= |old(ring)| &&
        ring == [old(ring)[0]] + old(ring)[|old(ring)| - |ring| + 1..]
    {
      hide Ring;
      InRepr();
      if front == null { Empty(); return; }
      Rewind();
      TakeAverage();
      ghost var average := usedAverage;
      Ends();
      while usedAverage * 2 < capacity && back.next != front
        invariant Valid() && repr == old(repr) && sp == Space(0, []) && front == old(front) && back == front != null
        invariant capacity <= old(capacity) && last == 0 && usedAverage == average
        invariant capacity < old(capacity) ==> usedAverage * 2 < capacity + pageSize
        invariant 1 <= |ring| <= |old(ring)| && ring == [old(ring)[0]] + old(ring)[|old(ring)| - |ring| + 1..]
        decreases |ring|
      {
        FreedSoFar(old(ring), ring);
        FreeNext();
        Ends();
      }
      Ends();
      OneMeansOne();
    }

    lemma AtPage(i: nat)
      requires Ring() && front != null && i <= last
      ensures |ring| == |held| && last < |ring| && ring[i].bytes[..] == held[i].bytes &&
        ring[i].bytes.Length == pageSize
      ensures i < last ==> ring[i].next == ring[i + 1]
      ensures i != last ==> ring[i] != back
      ensures ring[i].bytes in repr && back == ring[last] && front == ring[0] && frontCursor == frontLeft
      ensures Layout(held, last, frontLeft, backLeft, pageSize, sp) && frontLeft <= pageSize && backLeft <= pageSize
    {
    }

    /** Copies a part of page `i` to where it belongs. */
    method CopyPart(buf: array<byte>, ghost before: seq<byte>, p: Page, ghost i: nat, at: nat, lo: nat, n: nat)
      requires Ring() && front != null && i <= last && ring[i] == p && buf !in repr && lo + n <= pageSize
      requires (i == 0 ==> frontLeft <= lo) && (i == last ==> lo + n <= pageSize - backLeft)
      requires i < |held| && at == held[i].offset + lo - sp.start && at <= |sp.bytes| <= |before| &&
        buf.Length == |before|
      requires buf[..] == Written(before, 0, sp.bytes[..at])
      modifies buf
      ensures Ring() && at + n <= |sp.bytes| && buf[..] == Written(before, 0, sp.bytes[..at + n])
      ensures i < last && lo + n == pageSize ==> i + 1 < |held| && at + n == held[i + 1].offset - sp.start
    {
      hide Ring, Layout, Written;
      AtPage(i);
      PagePart(held, last, frontLeft, backLeft, pageSize, sp, i, lo, n);
      CopyRange(buf, at, p.bytes, lo, n);
      WrittenMore(before, 0, sp.bytes[..at], sp.bytes[at..at + n]);
      assert sp.bytes[..at + n] == sp.bytes[..at] + sp.bytes[at..at + n];
    }

    /** Copies the contents to the start of `buf` when it has room for them. The result is where the
        back page's part was written, and so not the start of `buf` unless one page holds everything. */
    method CopyBuffer(buf: array<byte>, size: nat) returns (at: Option<nat>)
      requires Valid() && size <= buf.Length && buf !in repr
      modifies buf
      ensures Valid()
      ensures at == None <==> size < used || front == null
      ensures at == None ==> buf[..] == old(buf[..])
      ensures at.Some? ==> used <= buf.Length && buf[..] == sp.bytes + old(buf[used..])
      ensures at.Some? && front == back ==> at.value == 0
      ensures at.Some? && front != back ==> backLeft <= pageSize && at.value == used - (pageSize - backLeft)
    {
      hide Ring, Layout, Written;
      if size < used { return None; }
      if front == null { return None; }
      ghost var before := buf[..];
      AtPage(0);
      LayoutBounds(held, last, frontLeft, backLeft, pageSize, sp);
      NothingWritten(before, 0);
      WrittenAll(before, sp.bytes);
      FirstOffset();
      if front == back {
        CopyPart(buf, before, front, 0, 0, frontCursor, used);
        assert sp.bytes[..used] == sp.bytes;
        return Some(0);
      }
      var to := CopyPages(buf, before);
      return Some(to);
    }

    /** The rest of the front page, the pages in between, and the back page up to its cursor. */
    method CopyPages(buf: array<byte>, ghost before: seq<byte>) returns (to: nat)
      requires Valid() && front != null && front != back && buf !in repr && buf[..] == before &&
        |sp.bytes| <= buf.Length
      modifies buf
      ensures Valid() && backLeft <= pageSize && to == used - (pageSize - backLeft)
      ensures buf[..] == Written(before, 0, sp.bytes)
    {
      hide Ring, Layout, Written;
      AtPage(0);
      NothingWritten(before, 0);
      FirstOffset();
      LastOffset();
      var len := pageSize - frontLeft;
      CopyPart(buf, before, front, 0, 0, frontCursor, len);
      var p := front.next;
      to := len;
      ghost var i := 1;
      while p != back
        invariant 1 <= i <= last && p == ring[i] && to == held[i].offset - sp.start && to <= |sp.bytes| && Ring()
        invariant buf[..] == Written(before, 0, sp.bytes[..to])
        decreases last - i
      {
        AtPage(i);
        CopyPart(buf, before, p, i, to, 0, pageSize);
        p, to, i := p.next, to + pageSize, i + 1;
      }
      AtPage(i);
      LastOffset();
      CopyPart(buf, before, p, i, to, 0, pageSize - backLeft);
      assert sp.bytes[..|sp.bytes|] == sp.bytes;
    }

    /** Where in the front page the contents start, if one page holds them all. */
    method DirectBuffer() returns (at: Option<nat>, size: nat)
      requires Valid()
      ensures at.Some? <==> front != null && front == back
      ensures at.Some? ==>
        size == used && at.value + size <= front.bytes.Length &&
        front.bytes[at.value..at.value + size] == sp.bytes
      ensures at == None ==> size == 0
    {
      hide Ring, Layout;
      if front == back {
        if front == null { Empty(); return None, used; }
        AtPage(0);
        FirstOffset();
        LayoutBounds(held, last, frontLeft, backLeft, pageSize, sp);
        PagePart(held, last, frontLeft, backLeft, pageSize, sp, 0, frontCursor, used);
        assert sp.bytes[0..used] == sp.bytes;
        assert front.bytes[frontCursor..frontCursor + used] == front.bytes[..][frontCursor..frontCursor + used];
        return Some(frontCursor), used;
      }
      return None, 0;
    }

    lemma FirstOffset()
      requires Ring() && front != null
      ensures held != [] && held[0].offset + frontLeft == sp.start
      ensures last == 0 <==> front == back
    {
    }

    lemma LastOffset()
      requires Ring() && front != null
      ensures last < |held| && held[last].offset - sp.start + pageSize - backLeft == |sp.bytes| && backLeft <= pageSize
    {
    }

    static lemma WrittenAll(before: seq<byte>, data: seq<byte>)
      requires |data| <= |before|
      ensures Written(before, 0, data) == data + before[|data|..]
    {
    }
  }

  // ------------------------------------------------------------- the builder's emissions

  /** What the builder emits in front has a negative reference and prepends; what it emits at the
      back has the end of its space as reference and appends. So the emitter and the builder,
      starting out empty together, always hold the same space. */
  lemma BuilderEmits(sp: Space, data: seq<byte>)
    requires ValidSpace(sp)
    ensures |data| < U32 && EmitFront(sp, data).Emitted? ==>
      EmitFront(sp, data).ref < 0 && EmitFront(sp, data).sp == Prepend(sp, data)
    ensures |data| < U32 / 2 && EmitBack(sp, data).Emitted? ==>
      EmitBack(sp, data).ref - 1 >= 0 && EmitBack(sp, data).sp == Append(sp, data)
  {
  }
}
