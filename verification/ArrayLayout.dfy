/** Which views are accepted, told from their layout: lengths, sizes and offsets, at any offset and at
    any depth. */
module ArrayLayout {
  import opened Wrappers
  import opened Bits
  import opened ArrayViews

  /** `size` bytes of the second buffer hold what `n` elements need. */
  predicate SecondCovers(kind: Kind, size: int, n: int)
  {
    match kind
    case Ints(width, _) => width * n <= size
    case Bools => n <= 8 * size
    case FixedBlobs(blobSize) => blobSize * n <= size
    case Blobs(large) => (if n == 0 then 0 else (n + 1) * if large then 8 else 4) <= size
    case Lists(large) => (if n == 0 then 0 else (n + 1) * if large then 8 else 4) <= size
    case _ => true
  }

  /** The children a layout has, and how many elements they need. */
  predicate ChildrenCover(v: ArrayView)
  {
    match v.kind
    case Lists(_) => |v.children| == 1
    case Structs => forall i | 0 <= i < |v.children| :: v.offset + v.length <= v.children[i].length
    case FixedLists(size) => |v.children| == 1 && (v.offset + v.length) * size <= v.children[0].length
    case RunEnds =>
      && |v.children| == 2
      && v.children[0].kind in {Ints(2, true), Ints(4, true), Ints(8, true)} && v.children[0].nullCount == 0
      && v.offset + v.length <= (match v.children[0].kind.width
                                 case 2 => 0x7fff
                                 case 4 => 0x7fff_ffff
                                 case _ => 0x7fff_ffff_ffff_ffff)
      && v.children[0].length <= v.children[1].length && (v.children[0].length == 0 ==> v.children[1].length == 0)
    case _ => true
  }

  /** The end fits 64 bits, known sizes cover it, and so do the children. A bitmap of known size 0 is
      not looked at beside a null count of 0. */
  predicate FitsOwn(v: ArrayView)
  {
    && v.offset >= 0 && v.length >= 0 && v.offset + v.length <= 0x7fff_ffff_ffff_ffff
    && (v.kind.RunEnds? || v.first.size == UNKNOWN || v.offset + v.length <= 8 * v.first.size ||
        (v.nullCount == 0 && v.first.size == 0))
    && (v.second.size == UNKNOWN || SecondCovers(v.kind, v.second.size, v.offset + v.length))
    && ChildrenCover(v)
  }

  predicate Fits(v: ArrayView)
    decreases v
  {
    FitsOwn(v) && forall i | 0 <= i < |v.children| :: Fits(v.children[i])
  }

  /** There are no offsets, and none are needed. */
  predicate NoOffsets(v: ArrayView)
  {
    v.second.size == 0 || (v.second.size == UNKNOWN && v.offset + v.length == 0)
  }

  /** The first and the last offset, or run end, lie within their limits. */
  predicate EndsOwn(v: ArrayView)
  {
    match v.kind
    case Blobs(_) =>
      NoOffsets(v) ||
      (0 <= Cell(v.second, v.offset) && 0 <= Cell(v.second, v.offset + v.length) &&
       (v.third.size == UNKNOWN || Cell(v.second, v.offset + v.length) <= v.third.size))
    case Lists(_) =>
      NoOffsets(v) ||
      (0 <= Cell(v.second, v.offset) &&
       |v.children| > 0 && 0 <= Cell(v.second, v.offset + v.length) <= v.children[0].length)
    case RunEnds =>
      |v.children| > 0 && var ends := v.children[0];
      ends.length == 0 || (GetInt(ends, 0) >= 1 && GetInt(ends, ends.length - 1) >= v.offset + v.length)
    case _ => true
  }

  predicate EndsFit(v: ArrayView)
    decreases v
  {
    EndsOwn(v) && forall i | 0 <= i < |v.children| :: EndsFit(v.children[i])
  }

  /** Offsets never go back, and run ends go on. */
  predicate OrderedOwn(v: ArrayView)
  {
    match v.kind
    case Blobs(_) => forall i, j | v.offset <= i <= j <= v.offset + v.length :: Cell(v.second, i) <= Cell(v.second, j)
    case Lists(_) => forall i, j | v.offset <= i <= j <= v.offset + v.length :: Cell(v.second, i) <= Cell(v.second, j)
    case RunEnds =>
      |v.children| > 0 && var ends := v.children[0];
      forall i, j | 0 <= i < j < ends.length :: GetInt(ends, i) < GetInt(ends, j)
    case _ => true
  }

  predicate AllOrdered(v: ArrayView)
    decreases v
  {
    OrderedOwn(v) && forall i | 0 <= i < |v.children| :: AllOrdered(v.children[i])
  }

  // ------------------------------------------------------------------ minimal validation

  lemma BytesCover(n: nat, size: int)
    ensures BytesForBits(n) <= size <==> n <= 8 * size
  {
  }

  lemma SecondIsLeast(kind: Kind, n: nat, size: int)
    ensures SecondSize(kind, n) == None ==> SecondCovers(kind, size, n)
    ensures SecondSize(kind, n).Some? ==> (SecondSize(kind, n).value <= size <==> SecondCovers(kind, size, n))
  {
    BytesCover(n, size);
  }

  lemma SameCover(v: ArrayView)
    requires v.offset >= 0 && v.length >= 0
    ensures MinimalChildren(v) <==> ChildrenCover(v)
  {
  }

  lemma OwnFits(v: ArrayView)
    ensures FitsOwn(v) <==>
      v.offset >= 0 && v.length >= 0 && End(v) <= INT64_MAX && MinimalChildren(v) && MinimalBuffers(v).Some?
  {
    hide SecondSize, SecondCovers, MinimalChildren, ChildrenCover;
    if v.offset >= 0 && v.length >= 0 {
      SameCover(v);
      BytesCover(End(v), v.first.size);
      SecondIsLeast(v.kind, End(v), v.second.size);
    }
  }

  lemma {:induction false} AllMinimal(vs: seq<ArrayView>)
    ensures MinimalAll(vs).Some? <==> forall i | 0 <= i < |vs| :: Minimal(vs[i]).Some?
  {
    hide Minimal;
    if vs != [] {
      AllMinimal(vs[1..]);
      assert forall i | 0 < i < |vs| :: vs[i] == vs[1..][i - 1];
    }
  }

  /** Minimal validation accepts exactly the views whose parts fit. */
  lemma {:induction false} MinimalAccepts(v: ArrayView)
    ensures Minimal(v).Some? <==> Fits(v)
    decreases v
  {
    hide MinimalBuffers, MinimalChildren, FitsOwn, MinimalAll;
    OwnFits(v);
    AllMinimal(v.children);
    forall i | 0 <= i < |v.children| ensures Minimal(v.children[i]).Some? <==> Fits(v.children[i]) {
      MinimalAccepts(v.children[i]);
    }
  }

  // ------------------------------------------- validation that reads the offset buffers

  lemma SizedAgain<T>(b: Buffer<T>, least: int)
    requires Sized(b, least).Some? && least >= 0
    ensures Sized(Sized(b, least).value, least) == Sized(b, least)
  {
  }

  lemma BuffersAgain(v: ArrayView)
    requires v.offset >= 0 && v.length >= 0 && MinimalBuffers(v).Some?
    ensures var m := MinimalBuffers(v).value;
      SameShape(v, m) && m.children == v.children && MinimalBuffers(m) == Some(m)
  {
    hide SecondSize;
    if Sized(v.first, BytesForBits(End(v))).Some? { SizedAgain(v.first, BytesForBits(End(v))); }
    SecondNotNegative(v.kind, End(v));
    var need := SecondSize(v.kind, End(v));
    if need.Some? { SizedAgain(v.second, need.value); }
  }

  lemma SecondNotNegative(kind: Kind, n: nat)
    ensures SecondSize(kind, n).Some? ==> SecondSize(kind, n).value >= 0
  {
  }

  lemma {:induction false} AllAgain(vs: seq<ArrayView>, ms: seq<ArrayView>)
    requires |ms| == |vs| && forall i | 0 <= i < |vs| :: Minimal(vs[i]) == Some(ms[i])
    ensures MinimalAll(vs) == Some(ms)
  {
    hide Minimal;
    if vs != [] {
      AllAgain(vs[1..], ms[1..]);
      assert ms == [ms[0]] + ms[1..];
    } else {
      assert ms == [];
    }
  }

  /** Minimal validation of what it has returned changes nothing. */
  lemma {:induction false} MinimalAgain(v: ArrayView)
    requires Minimal(v).Some?
    ensures Minimal(Minimal(v).value) == Minimal(v)
    decreases v
  {
    hide MinimalBuffers, MinimalChildren, MinimalAll;
    MinimalFacts(v);
    BuffersAgain(v);
    var own, m := MinimalBuffers(v).value, Minimal(v).value;
    assert forall i | 0 <= i < |v.children| :: Minimal(v.children[i]) == Some(m.children[i]);
    forall i | 0 <= i < |v.children| ensures Minimal(m.children[i]) == Some(m.children[i]) {
      MinimalAgain(v.children[i]);
    }
    AllAgain(m.children, m.children);
    BuffersOnly(own, m);
  }

  lemma BuffersOnly(v: ArrayView, w: ArrayView)
    requires v.offset >= 0 && v.length >= 0 && MinimalBuffers(v) == Some(v) && w == v.(children := w.children)
    ensures MinimalBuffers(w) == Some(w)
  {
  }

  /** So default validation may just as well be given what minimal validation has returned. */
  lemma DefaultOfMinimal(v: ArrayView)
    requires Minimal(v).Some?
    ensures Default(Minimal(v).value) == Default(v)
  {
    hide Minimal, DefaultOwn, DefaultAll, MinimalChildren;
    MinimalAgain(v);
    MinimalFacts(v);
  }

  lemma {:induction false} AllDefault(vs: seq<ArrayView>)
    ensures DefaultAll(vs).Some? <==> forall i | 0 <= i < |vs| :: Default(vs[i]).Some?
  {
    hide Default;
    if vs != [] {
      AllDefault(vs[1..]);
      assert forall i | 0 < i < |vs| :: vs[i] == vs[1..][i - 1];
    }
  }

  /** Whether there are offsets, once the sizes are assigned. */
  lemma OffsetsThere(v: ArrayView)
    requires Minimal(v).Some? && (v.kind.Blobs? || v.kind.Lists?)
    ensures Minimal(v).value.second.size == 0 <==> NoOffsets(v)
    ensures Minimal(v).value.third == v.third
  {
    hide MinimalChildren, MinimalAll;
  }

  lemma OwnEnds(v: ArrayView)
    requires Minimal(v).Some? && MinimalChildren(Minimal(v).value)
    requires Minimal(v).value.offset >= 0 && Minimal(v).value.length >= 0
    ensures DefaultOwn(Minimal(v).value).Some? <==> EndsOwn(v)
  {
    hide Minimal, NoOffsets;
    MinimalKeepsCells(v);
    MinimalFacts(v);
    if v.kind.Blobs? || v.kind.Lists? { OffsetsThere(v); }
    if v.kind.Lists? || v.kind.RunEnds? {
      ChildCount(Minimal(v).value);
      MinimalKeepsCells(v.children[0]);
    }
  }

  /** Default validation accepts exactly the views whose parts fit, the last offsets included. */
  lemma {:induction false} DefaultAccepts(v: ArrayView)
    ensures Default(v).Some? <==> Fits(v) && EndsFit(v)
    decreases v
  {
    hide Minimal, DefaultOwn, DefaultAll, EndsOwn, FitsOwn, MinimalChildren;
    MinimalAccepts(v);
    if Minimal(v).Some? {
      MinimalFacts(v);
      OwnEnds(v);
      var m := Minimal(v).value;
      OwnKeeps(m);
      AllDefault(m.children);
      forall i | 0 <= i < |v.children| ensures Default(m.children[i]).Some? <==> EndsFit(v.children[i]) {
        DefaultOfMinimal(v.children[i]);
        DefaultAccepts(v.children[i]);
      }
    }
  }

  lemma OwnKeeps(m: ArrayView)
    requires m.offset >= 0 && m.length >= 0 && MinimalChildren(m)
    ensures DefaultOwn(m).Some? ==> DefaultOwn(m).value.children == m.children
  {
  }

  // -------------------------------------------------------------------- full validation

  lemma {:induction false} Sorted(b: Buffer<int>, from: int, n: nat)
    ensures Increasing(b, from, n) <==> forall i, j | from <= i <= j <= from + n :: Cell(b, i) <= Cell(b, j)
  {
    hide Cell;
    if Increasing(b, from, n) {
      forall i, j | from <= i <= j <= from + n ensures Cell(b, i) <= Cell(b, j) {
        OffsetsBetween(b, from, n, i - from, j - from);
      }
    }
  }

  lemma RunsSorted(ends: ArrayView)
    ensures (forall i | 0 < i < ends.length :: GetInt(ends, i) > GetInt(ends, i - 1)) <==>
      forall i, j | 0 <= i < j < ends.length :: GetInt(ends, i) < GetInt(ends, j)
  {
    hide GetInt;
    if forall i | 0 < i < ends.length :: GetInt(ends, i) > GetInt(ends, i - 1) {
      forall i, j | 0 <= i < j < ends.length ensures GetInt(ends, i) < GetInt(ends, j) {
        RunEndsGrow(ends, i, j - 1);
      }
    }
  }

  lemma OwnOrdered(v: ArrayView, d: ArrayView)
    requires Default(v) == Some(d)
    ensures FullOwn(d) <==> OrderedOwn(v)
  {
    hide Minimal, Default, Increasing, Cell;
    DefaultKeepsCells(v, d);
    SecondSafe(v, d);
    if v.kind.RunEnds? {
      ChildCount(d);
      ChildrenKept(v, d, 0);
      RunsSorted(v.children[0]);
      SameRuns(v.children[0], d.children[0]);
    } else if v.kind.Blobs? || v.kind.Lists? {
      Sorted(v.second, v.offset, v.length);
      SameIncreasing(v.second, d.second, v.offset, v.length);
    }
  }

  lemma SameIncreasing(b: Buffer<int>, c: Buffer<int>, from: int, n: int)
    requires b.cells == c.cells
    ensures Increasing(b, from, n) <==> Increasing(c, from, n)
  {
    assert forall i :: Cell(b, i) == Cell(c, i);
  }

  lemma SameRuns(ends: ArrayView, other: ArrayView)
    requires SameCells(ends, other)
    ensures (forall i | 0 < i < ends.length :: GetInt(ends, i) > GetInt(ends, i - 1)) <==>
      forall i | 0 < i < other.length :: GetInt(other, i) > GetInt(other, i - 1)
  {
    assert forall i :: GetInt(ends, i) == GetInt(other, i);
  }

  lemma {:induction false} FullAccepts(v: ArrayView, d: ArrayView)
    requires Default(v) == Some(d)
    ensures Full(d) <==> AllOrdered(v)
    decreases v
  {
    hide Minimal, Default, DefaultOwn, FullOwn, OrderedOwn;
    OwnOrdered(v, d);
    DefaultFacts(v, d);
    MinimalFacts(v);
    forall i | 0 <= i < |v.children| ensures Full(d.children[i]) <==> AllOrdered(v.children[i]) {
      ChildrenKept(v, d, i);
      DefaultOfMinimal(v.children[i]);
      FullAccepts(v.children[i], d.children[i]);
    }
  }

  /** Full validation accepts exactly the views that are laid out in order, whatever their offsets, at
      every level. */
  lemma FullyAccepts(v: ArrayView)
    ensures Accepted(v).Some? <==> Fits(v) && EndsFit(v) && AllOrdered(v)
  {
    hide Default, Full, Fits, EndsFit, AllOrdered;
    DefaultAccepts(v);
    if Default(v).Some? { FullAccepts(v, Default(v).value); }
  }

  // ------------------------------------------------------------------ what is returned

  ghost predicate SameMemory<T>(b: Buffer<T>, c: Buffer<T>)
  {
    b.present == c.present && b.cells == c.cells
  }

  /** `d` is `v` with its unknown sizes assigned: the least ones that cover. */
  ghost predicate CompletedOwn(v: ArrayView, d: ArrayView)
  {
    var end := v.offset + v.length;
    && SameShape(v, d) && SameMemory(v.first, d.first) && SameMemory(v.second, d.second) && SameMemory(v.third, d.third)
    && (if v.first.size != UNKNOWN || v.kind.RunEnds? then d.first.size == v.first.size
        else 8 * (d.first.size - 1) < end <= 8 * d.first.size)
    && (if v.second.size != UNKNOWN || v.kind.Structs? || v.kind.FixedLists? || v.kind.RunEnds?
        then d.second.size == v.second.size
        else SecondCovers(v.kind, d.second.size, end) && !SecondCovers(v.kind, d.second.size - 1, end))
    && (if v.third.size != UNKNOWN || !v.kind.Blobs? then d.third.size == v.third.size
        else d.third.size == if NoOffsets(v) then 0 else Cell(v.second, end))
  }

  ghost predicate Completed(v: ArrayView, d: ArrayView)
    decreases v
  {
    CompletedOwn(v, d) && forall i | 0 <= i < |v.children| :: Completed(v.children[i], d.children[i])
  }

  lemma LeastBits(n: nat)
    ensures 8 * (BytesForBits(n) - 1) < n <= 8 * BytesForBits(n)
  {
  }

  lemma LeastSecond(kind: Kind, n: nat)
    ensures SecondSize(kind, n) == None <==> kind.Structs? || kind.FixedLists? || kind.RunEnds?
    ensures SecondSize(kind, n).Some? ==>
      SecondCovers(kind, SecondSize(kind, n).value, n) && !SecondCovers(kind, SecondSize(kind, n).value - 1, n)
  {
    if SecondSize(kind, n).Some? {
      SecondIsLeast(kind, n, SecondSize(kind, n).value);
      SecondIsLeast(kind, n, SecondSize(kind, n).value - 1);
    }
  }

  lemma OwnCompleted(v: ArrayView, d: ArrayView)
    requires Default(v) == Some(d)
    ensures CompletedOwn(v, d)
  {
    hide Minimal, Default, MinimalChildren, SecondSize, SecondCovers, NoOffsets, BytesForBits, Cell;
    DefaultFacts(v, d);
    MinimalFacts(v);
    LeastBits(End(v));
    LeastSecond(v.kind, End(v));
    if v.kind.Blobs? { OffsetsThere(v); }
    SameCell(v, Minimal(v).value);
  }

  lemma SameCell(v: ArrayView, m: ArrayView)
    ensures v.second.cells == m.second.cells ==> forall i :: Cell(v.second, i) == Cell(m.second, i)
  {
  }

  lemma {:induction false} DefaultCompletes(v: ArrayView, d: ArrayView)
    requires Default(v) == Some(d)
    ensures Completed(v, d)
    decreases v
  {
    hide Minimal, Default, CompletedOwn;
    OwnCompleted(v, d);
    DefaultFacts(v, d);
    MinimalFacts(v);
    forall i | 0 <= i < |v.children| ensures Completed(v.children[i], d.children[i]) {
      ChildrenKept(v, d, i);
      DefaultOfMinimal(v.children[i]);
      DefaultCompletes(v.children[i], d.children[i]);
    }
    ChildCountKept(v, d);
  }

  lemma ChildCountKept(v: ArrayView, d: ArrayView)
    requires CompletedOwn(v, d)
    ensures |v.children| == |d.children|
  {
  }

  /** What full validation returns is the view itself, apart from the sizes that were unknown. */
  lemma AcceptedCompletes(v: ArrayView)
    ensures Accepted(v).Some? ==> Completed(v, Accepted(v).value)
  {
    hide Default, Full, Completed;
    if Accepted(v).Some? { DefaultCompletes(v, Accepted(v).value); }
  }

  // ------------------------------------------------------------------------------- slices

  lemma ScaledCover(w: nat, n: nat, m: nat, size: int)
    requires n <= m && w * m <= size
    ensures w * n <= size && n * w <= size
  {
  }

  lemma SliceCovers(kind: Kind, size: int, n: nat, m: nat)
    requires n <= m && SecondCovers(kind, size, m)
    ensures SecondCovers(kind, size, n)
  {
    if kind.Ints? { ScaledCover(kind.width, n, m, size); }
    if kind.FixedBlobs? { ScaledCover(kind.blobSize, n, m, size); }
  }

  lemma SliceChildren(v: ArrayView, from: nat, n: nat)
    requires ChildrenCover(v) && v.offset >= 0 && from + n <= v.length
    ensures ChildrenCover(Sliced(v, from, n))
  {
    if v.kind.FixedLists? {
      ScaledCover(v.kind.listSize, v.offset + from + n, v.offset + v.length, v.children[0].length);
    }
  }

  lemma SliceOwnFits(v: ArrayView, from: nat, n: nat)
    requires FitsOwn(v) && from + n <= v.length
    ensures FitsOwn(Sliced(v, from, n))
  {
    hide SecondCovers, ChildrenCover;
    SliceChildren(v, from, n);
    if v.second.size != UNKNOWN { SliceCovers(v.kind, v.second.size, v.offset + from + n, v.offset + v.length); }
  }

  lemma SliceFits(v: ArrayView, from: nat, n: nat)
    requires Fits(v) && from + n <= v.length
    ensures Fits(Sliced(v, from, n))
  {
    hide FitsOwn;
    SliceOwnFits(v, from, n);
  }

  lemma SliceEnds(v: ArrayView, from: nat, n: nat)
    requires Fits(v) && EndsFit(v) && AllOrdered(v) && from + n <= v.length
    ensures EndsFit(Sliced(v, from, n)) && AllOrdered(Sliced(v, from, n))
  {
    hide Fits, SecondCovers, ChildrenCover;
    assert FitsOwn(v) by { OwnOfFits(v); }
    if v.second.size == 0 && (v.kind.Blobs? || v.kind.Lists?) { NoneNeeded(v); }
  }

  lemma OwnOfFits(v: ArrayView)
    requires Fits(v)
    ensures FitsOwn(v)
  {
  }

  lemma NoneNeeded(v: ArrayView)
    requires FitsOwn(v) && v.second.size == 0 && (v.kind.Blobs? || v.kind.Lists?)
    ensures v.offset + v.length == 0
  {
  }

  /** A slice of an accepted view is accepted. */
  lemma SliceAccepted(v: ArrayView, from: nat, n: nat)
    requires Accepted(v).Some? && from + n <= v.length
    ensures Accepted(Sliced(v, from, n)).Some?
  {
    hide Accepted, Fits, EndsFit, AllOrdered;
    FullyAccepts(v);
    FullyAccepts(Sliced(v, from, n));
    SliceFits(v, from, n);
    SliceEnds(v, from, n);
  }
}
