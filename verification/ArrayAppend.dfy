/** Building Arrow arrays by appending, and what a reader finds in what has been built. */
module ArrayAppend {
  import opened Wrappers
  import opened Bits
  import Bitmap
  import opened ArrayViews
  import ArrayLayout
  import Numerals

  const INT32_MAX: int := 0x7fff_ffff

  // -------------------------------------------------------------------------- reading

  datatype Item =
    | Number(n: int)
    | Blob(bytes: seq<int>)
    | Listed(items: seq<Option<Item>>)
    | Record(fields: seq<Option<Item>>)

  function CellsOf(b: Buffer<int>, from: int, n: int): (s: seq<int>)
    ensures |s| == if n < 0 then 0 else n
  {
    seq(if n < 0 then 0 else n, j => Cell(b, from + j))
  }

  predicate IsNull(v: ArrayView, i: int)
  {
    v.first.present && !(0 <= v.offset + i < |v.first.cells| && v.first.cells[v.offset + i])
  }

  /** Element `i` as the view readers give it; run-end encoded arrays have no reader of their own. */
  function ReadAt(v: ArrayView, i: int): Option<Item>
    decreases v, 1
  {
    if v.kind.RunEnds? || IsNull(v, i) then None else
    var at := v.offset + i;
    match v.kind
    case Ints(_, _) => Some(Number(GetInt(v, i)))
    case Bools => Some(Number(GetInt(v, i)))
    case FixedBlobs(size) => Some(Blob(CellsOf(v.second, at * size, size)))
    case Blobs(_) => Some(Blob(CellsOf(v.third, Cell(v.second, at), Cell(v.second, at + 1) - Cell(v.second, at))))
    case Lists(_) =>
      if |v.children| != 1 then None
      else Some(Listed(ReadRange(v.children[0], Cell(v.second, at), Cell(v.second, at + 1) - Cell(v.second, at))))
    case FixedLists(size) => if |v.children| != 1 then None else Some(Listed(ReadRange(v.children[0], at * size, size)))
    case Structs => Some(Record(ReadRow(v, at)))
  }

  /** Element `i` of every child. */
  function ReadRow(v: ArrayView, i: int): (s: seq<Option<Item>>)
    ensures |s| == |v.children|
    decreases v, 0
  {
    seq(|v.children|, j requires 0 <= j < |v.children| => ReadAt(v.children[j], i))
  }

  function ReadRange(v: ArrayView, from: int, n: int): (s: seq<Option<Item>>)
    ensures |s| == if n < 0 then 0 else n
    decreases v, 2
  {
    seq(if n < 0 then 0 else n, j => ReadAt(v, from + j))
  }

  /** All elements. */
  function Contents(v: ArrayView): (s: seq<Option<Item>>)
    requires v.length >= 0
    ensures |s| == v.length
  {
    ReadRange(v, 0, v.length)
  }

  /** Element `i` of a slice is element `from + i` of the whole array. */
  lemma {:induction false} ReadSliced(v: ArrayView, from: int, n: int, i: int)
    ensures ReadAt(Sliced(v, from, n), i) == ReadAt(v, from + i)
  {
    if v.kind.Structs? { assert ReadRow(Sliced(v, from, n), v.offset + from + i) == ReadRow(v, v.offset + from + i); }
  }

  lemma {:induction false} ContentsSliced(v: ArrayView, from: nat, n: nat)
    requires from + n <= v.length
    ensures Contents(Sliced(v, from, n)) == Contents(v)[from..from + n]
  {
    hide ReadAt;
    var part, whole := Contents(Sliced(v, from, n)), Contents(v);
    forall i | 0 <= i < n ensures part[i] == whole[from + i] {
      ReadSliced(v, from, n, i);
      assert part[i] == ReadAt(Sliced(v, from, n), 0 + i) && whole[from + i] == ReadAt(v, 0 + (from + i));
    }
  }

  // -------------------------------------------------------------- what has been built

  function Nulls(bits: seq<bool>): nat
  {
    if bits == [] then 0 else Nulls(bits[..|bits| - 1]) + (if bits[|bits| - 1] then 0 else 1)
  }

  function IntMax(width: nat, signed: bool): int
  {
    if width == 1 then (if signed then 0x7f else 0xff)
    else if width == 2 then (if signed then 0x7fff else 0xffff)
    else if width == 4 then (if signed then INT32_MAX else 0xffff_ffff)
    else if signed then INT64_MAX else 0xffff_ffff_ffff_ffff
  }

  function IntMin(width: nat, signed: bool): int
  {
    if signed then -IntMax(width, true) - 1 else 0
  }

  /** The numbers of a width, in two's complement if signed. */
  lemma IntRange(width: nat)
    requires width in {1, 2, 4, 8}
    ensures IntMin(width, false) == 0 && IntMax(width, false) == Numerals.Pow(2, 8 * width) - 1
    ensures 2 * IntMin(width, true) == -(Numerals.Pow(2, 8 * width) as int)
    ensures 2 * IntMax(width, true) == Numerals.Pow(2, 8 * width) - 2
  {
    hide Numerals.Pow;
    EightBits();
    Numerals.PowAdd(2, 8, 8);
    Numerals.PowAdd(2, 16, 16);
    Numerals.PowAdd(2, 32, 32);
  }

  lemma EightBits()
    ensures Numerals.Pow(2, 8) == 256
  {
    assert Numerals.Pow(2, 2) == 4 && Numerals.Pow(2, 4) == 16 by { Numerals.PowAdd(2, 2, 2); }
    Numerals.PowAdd(2, 4, 4);
  }

  ghost predicate SizeIs(size: int, width: int, n: int)
  {
    size == width * n
  }

  /** An offset buffer for `n` elements that starts at 0 and never goes back. */
  ghost predicate Offsets(b: Buffer<int>, large: bool, n: nat)
  {
    && |b.cells| == n + 1 && SizeIs(b.size, OffsetWidth(large), n + 1) && b.cells[0] == 0
    && (forall i | 0 <= i < n :: b.cells[i] <= b.cells[i + 1])
    && (large || b.cells[n] <= INT32_MAX)
  }

  ghost predicate BuiltBitmap(v: ArrayView)
  {
    && (v.first.present ==> |v.first.cells| == v.length && v.first.size == BytesForBits(v.length))
    && (!v.first.present ==> v.first.cells == [] && v.first.size == 0)
    && v.nullCount == Nulls(v.first.cells)
  }

  ghost predicate BuiltOwn(v: ArrayView)
  {
    && v.offset == 0 && v.length >= 0 && BuiltBitmap(v)
    && match v.kind
       case Ints(width, signed) =>
         |v.second.cells| == v.length && SizeIs(v.second.size, width, v.length) &&
         forall i | 0 <= i < v.length :: IntMin(width, signed) <= v.second.cells[i] <= IntMax(width, signed)
       case Bools =>
         |v.second.cells| == v.length && v.second.size == BytesForBits(v.length) &&
         forall i | 0 <= i < v.length :: 0 <= v.second.cells[i] <= 1
       case FixedBlobs(size) => SizeIs(|v.second.cells|, size, v.length) && v.second.size == |v.second.cells|
       case Blobs(large) =>
         Offsets(v.second, large, v.length) && v.second.cells[v.length] == |v.third.cells| == v.third.size
       case Lists(large) =>
         Offsets(v.second, large, v.length) && |v.children| == 1 && v.second.cells[v.length] <= v.children[0].length
       case Structs => forall i | 0 <= i < |v.children| :: v.children[i].length >= v.length
       case FixedLists(size) => |v.children| == 1 && v.children[0].length >= v.length * size
       case RunEnds => false
  }

  ghost predicate Built(v: ArrayView)
    decreases v
  {
    BuiltOwn(v) && forall i | 0 <= i < |v.children| :: Built(v.children[i])
  }

  // ------------------------------------------------------- arrays that continue others

  predicate Prefix<T(==)>(a: seq<T>, b: seq<T>)
  {
    |a| <= |b| && b[..|a|] == a
  }

  /** `w` holds the elements of `v`, in the same places. */
  ghost predicate ContinuesOwn(v: ArrayView, w: ArrayView)
  {
    && v.kind == w.kind && v.offset == w.offset && v.length <= w.length && |v.children| == |w.children|
    && (forall i | 0 <= i < v.length :: IsNull(v, i) == IsNull(w, i))
    && Prefix(v.second.cells, w.second.cells) && Prefix(v.third.cells, w.third.cells)
  }

  ghost predicate Continues(v: ArrayView, w: ArrayView)
    decreases v
  {
    ContinuesOwn(v, w) && forall i | 0 <= i < |v.children| :: Continues(v.children[i], w.children[i])
  }

  lemma PrefixCells(a: Buffer<int>, b: Buffer<int>, from: int, n: int)
    requires Prefix(a.cells, b.cells) && 0 <= from && from + n <= |a.cells|
    ensures CellsOf(a, from, n) == CellsOf(b, from, n)
    ensures forall i | from <= i < from + n :: Cell(a, i) == Cell(b, i)
  {
    forall i | from <= i < from + n ensures Cell(a, i) == Cell(b, i) {
      assert b.cells[..|a.cells|][i] == a.cells[i];
    }
  }

  lemma OffsetsFacts(b: Buffer<int>, large: bool, n: nat, i: int)
    requires Offsets(b, large, n) && 0 <= i <= n
    ensures 0 <= Cell(b, i) <= b.cells[n]
    ensures i < n ==> Cell(b, i) <= Cell(b, i + 1)
  {
    OffsetsOrdered(b, large, n, 0, i);
    OffsetsOrdered(b, large, n, i, n);
  }

  lemma {:induction false} OffsetsOrdered(b: Buffer<int>, large: bool, n: nat, i: int, j: int)
    requires Offsets(b, large, n) && 0 <= i <= j <= n
    ensures b.cells[i] <= b.cells[j]
    decreases j
  {
    if i < j { OffsetsOrdered(b, large, n, i, j - 1); }
  }

  lemma FixedInside(at: int, size: nat, n: int)
    requires 0 <= at < n
    ensures 0 <= at * size && at * size + size <= n * size
  {
    assert (at + 1) * size <= n * size by { var d := n - (at + 1); assert n * size == (at + 1) * size + d * size; }
  }

  /** Reading by kind, one step at a time. */
  lemma ReadLeaf(v: ArrayView, i: int)
    requires v.offset == 0 && !IsNull(v, i)
    ensures v.kind.Ints? || v.kind.Bools? ==> ReadAt(v, i) == Some(Number(Cell(v.second, i)))
    ensures v.kind.FixedBlobs? ==> ReadAt(v, i) == Some(Blob(CellsOf(v.second, i * v.kind.blobSize, v.kind.blobSize)))
    ensures v.kind.Blobs? ==>
      ReadAt(v, i) == Some(Blob(CellsOf(v.third, Cell(v.second, i), Cell(v.second, i + 1) - Cell(v.second, i))))
  {
  }

  lemma ReadNested(v: ArrayView, i: int)
    requires v.offset == 0 && !IsNull(v, i)
    ensures v.kind.Lists? && |v.children| == 1 ==>
      ReadAt(v, i) == Some(Listed(ReadRange(v.children[0], Cell(v.second, i),
        Cell(v.second, i + 1) - Cell(v.second, i))))
    ensures v.kind.FixedLists? && |v.children| == 1 ==>
      ReadAt(v, i) == Some(Listed(ReadRange(v.children[0], i * v.kind.listSize, v.kind.listSize)))
    ensures v.kind.Structs? ==> ReadAt(v, i) == Some(Record(ReadRow(v, i)))
  {
  }

  lemma ReadNull(v: ArrayView, i: int)
    requires IsNull(v, i)
    ensures ReadAt(v, i) == None
  {
  }

  lemma BlobsKept(v: ArrayView, w: ArrayView, i: int)
    requires BuiltOwn(v) && ContinuesOwn(v, w) && 0 <= i < v.length && (v.kind.FixedBlobs? || v.kind.Blobs?) &&
      !IsNull(v, i) && !IsNull(w, i)
    ensures ReadAt(w, i) == ReadAt(v, i)
  {
    hide ReadAt, Cell, Prefix, IsNull, Offsets, SizeIs, BuiltBitmap, CellsOf;
    ReadLeaf(v, i);
    ReadLeaf(w, i);
    if v.kind.FixedBlobs? {
      var size := v.kind.blobSize;
      FixedInside(i, size, v.length);
      assert |v.second.cells| == size * v.length by { SizeEquals(|v.second.cells|, size, v.length); }
      PrefixCells(v.second, w.second, i * size, size);
    } else {
      OffsetsKept(v, w, v.kind.large, i);
      PrefixCells(v.third, w.third, Cell(v.second, i), Cell(v.second, i + 1) - Cell(v.second, i));
    }
  }

  /** Continuing an array does not change what is read of it. */
  lemma {:induction false} ReadKept(v: ArrayView, w: ArrayView, i: int)
    requires Built(v) && Continues(v, w) && 0 <= i < v.length
    ensures ReadAt(w, i) == ReadAt(v, i)
    decreases v, 1
  {
    hide ReadAt, ReadRange, ReadRow, Cell, Prefix, IsNull, Offsets, SizeIs, BuiltBitmap, CellsOf;
    assert IsNull(v, i) == IsNull(w, i);
    if IsNull(v, i) {
      ReadNull(v, i);
      ReadNull(w, i);
    } else if v.kind.Ints? || v.kind.Bools? {
      ReadLeaf(v, i);
      ReadLeaf(w, i);
      PrefixCells(v.second, w.second, i, 1);
    } else if v.kind.FixedBlobs? || v.kind.Blobs? {
      BlobsKept(v, w, i);
    } else {
      ReadNested(v, i);
      ReadNested(w, i);
      if v.kind.Lists? {
        OffsetsKept(v, w, v.kind.large, i);
        RangeKept(v.children[0], w.children[0], Cell(v.second, i), Cell(v.second, i + 1) - Cell(v.second, i));
      } else if v.kind.FixedLists? {
        FixedInside(i, v.kind.listSize, v.length);
        RangeKept(v.children[0], w.children[0], i * v.kind.listSize, v.kind.listSize);
      } else {
        RowKept(v, w, i);
      }
    }
  }

  lemma {:induction false} RowKept(v: ArrayView, w: ArrayView, i: int)
    requires Built(v) && Continues(v, w) && v.kind.Structs? && 0 <= i < v.length
    ensures ReadRow(w, i) == ReadRow(v, i)
    decreases v, 0
  {
    hide ReadAt, BuiltBitmap, IsNull, Prefix;
    var a, b := ReadRow(w, i), ReadRow(v, i);
    forall j | 0 <= j < |v.children| ensures a[j] == b[j] {
      ReadKept(v.children[j], w.children[j], i);
    }
  }

  lemma SizeEquals(size: int, width: int, n: int)
    requires SizeIs(size, width, n)
    ensures size == width * n
  {
  }

  lemma OffsetsKept(v: ArrayView, w: ArrayView, large: bool, i: int)
    requires 0 <= i < v.length && Offsets(v.second, large, v.length) && Prefix(v.second.cells, w.second.cells)
    ensures Cell(w.second, i) == Cell(v.second, i) && Cell(w.second, i + 1) == Cell(v.second, i + 1)
    ensures 0 <= Cell(v.second, i) <= Cell(v.second, i + 1) <= v.second.cells[v.length]
  {
    PrefixCells(v.second, w.second, i, 2);
    OffsetsFacts(v.second, large, v.length, i);
    OffsetsFacts(v.second, large, v.length, i + 1);
  }

  lemma {:induction false} RangeKept(v: ArrayView, w: ArrayView, from: int, n: nat)
    requires Built(v) && Continues(v, w) && 0 <= from && from + n <= v.length
    ensures ReadRange(w, from, n) == ReadRange(v, from, n)
    decreases v, 2
  {
    hide Built, Continues, ReadAt;
    var a, b := ReadRange(w, from, n), ReadRange(v, from, n);
    forall j | 0 <= j < n ensures a[j] == b[j] {
      ReadKept(v, w, from + j);
    }
  }

  /** So its contents are the first part of what it has become. */
  lemma ContentsKept(v: ArrayView, w: ArrayView)
    requires Built(v) && Continues(v, w)
    ensures 0 <= v.length <= w.length && Contents(w)[..v.length] == Contents(v)
  {
    hide ReadAt;
    RangeKept(v, w, 0, v.length);
  }

  // ------------------------------------------------------------------------ appending

  function Repeat<T>(n: nat, x: T): (s: seq<T>)
    ensures |s| == n && forall i | 0 <= i < n :: s[i] == x
  {
    seq(n, _ => x)
  }

  function Grown(b: Buffer<int>, more: seq<int>, width: nat): Buffer<int>
  {
    Buffer(true, b.size + width * |more|, b.cells + more)
  }

  /** More bits of a bool array. However many they are, the buffer grows for one element only. */
  function BitsGrown(v: ArrayView, more: seq<int>): Buffer<int>
  {
    var least := BytesForBits(if v.length < 0 then 1 else v.length + 1);
    Buffer(true, if v.second.size < least then least else v.second.size, v.second.cells + more)
  }

  /** Whether `n` more bits lie inside it. */
  predicate BitsFit(v: ArrayView, n: nat)
  {
    v.length >= 0 && BytesForBits(v.length + n) == BytesForBits(v.length + 1)
  }

  /** The bitmap after `n` more bits. The first null allocates it, with a set bit for every element
      there is; without it valid elements leave no trace. */
  function BitmapWith(v: ArrayView, n: nat, isValid: bool): Buffer<bool>
  {
    if v.first.present then Buffer(true, BytesForBits(|v.first.cells| + n), v.first.cells + Repeat(n, isValid))
    else if isValid || v.length < 0 then v.first
    else Buffer(true, BytesForBits(v.length + n), Repeat(v.length, true) + Repeat(n, false))
  }

  /** These are the bits that the bitmap's own append leaves in its bytes. */
  lemma BitmapExtends(v: ArrayView, n: nat, isValid: bool)
    requires BuiltBitmap(v) && v.length >= 0
    ensures BitmapWith(v, n, isValid).cells == Bitmap.Extended(v.first.present, v.first.cells, v.length, n, isValid)
    ensures BitmapWith(v, n, isValid).present <==> v.first.present || !isValid
  {
    var w, x := BitmapWith(v, n, isValid).cells, Bitmap.Extended(v.first.present, v.first.cells, v.length, n, isValid);
    assert |w| == |x| && forall i | 0 <= i < |w| :: w[i] == x[i];
  }

  /** The last offset, which an empty element repeats. */
  function LastOffset(v: ArrayView): int
  {
    Cell(v.second, v.length)
  }

  function EmptySecond(v: ArrayView, n: nat): Buffer<int>
  {
    match v.kind
    case Ints(width, _) => Grown(v.second, Repeat(n, 0), width)
    case Bools => BitsGrown(v, Repeat(n, 0))
    case FixedBlobs(size) => Grown(v.second, Repeat(size * n, 0), 1)
    case Blobs(large) => Grown(v.second, Repeat(n, LastOffset(v)), OffsetWidth(large))
    case Lists(large) => Grown(v.second, Repeat(n, LastOffset(v)), OffsetWidth(large))
    case _ => v.second
  }

  /** Appends `n` nulls or `n` empty elements; below, the children get empty elements that are valid. */
  function AddEmpty(v: ArrayView, n: nat, isValid: bool): (w: ArrayView)
    ensures w.length == v.length + n && w.kind == v.kind && |w.children| == |v.children|
    decreases v
  {
    if n == 0 then v else
    var children := match v.kind
      case FixedLists(size) =>
        seq(|v.children|, j requires 0 <= j < |v.children| => AddEmpty(v.children[j], n * size, true))
      case Structs => seq(|v.children|, j requires 0 <= j < |v.children| => AddEmpty(v.children[j], n, true))
      case _ => v.children;
    v.(first := BitmapWith(v, n, isValid), second := EmptySecond(v, n), children := children,
       length := v.length + n, nullCount := v.nullCount + if isValid then 0 else n)
  }

  /** Whether appending `n` nulls or empty elements stays inside the bit buffers of all bool arrays it
      appends to. */
  predicate EmptyFits(v: ArrayView, n: nat)
    decreases v
  {
    n == 0 ||
    match v.kind
    case Bools => BitsFit(v, n)
    case FixedLists(size) => forall i | 0 <= i < |v.children| :: EmptyFits(v.children[i], n * size)
    case Structs => forall i | 0 <= i < |v.children| :: EmptyFits(v.children[i], n)
    case _ => true
  }

  /** One element more always fits where no fixed-size list is above the bools. */
  lemma {:induction false} OneFits(v: ArrayView)
    requires Built(v) && FlatBools(v)
    ensures EmptyFits(v, 1)
    decreases v
  {
    if v.kind.Structs? {
      forall i | 0 <= i < |v.children| ensures EmptyFits(v.children[i], 1) { OneFits(v.children[i]); }
    }
  }

  predicate FlatBools(v: ArrayView)
    decreases v
  {
    !v.kind.FixedLists? && (v.kind.Structs? ==> forall i | 0 <= i < |v.children| :: FlatBools(v.children[i]))
  }

  lemma {:induction false} NullsRun(bits: seq<bool>, n: nat, b: bool)
    ensures Nulls(bits + Repeat(n, b)) == Nulls(bits) + if b then 0 else n
    decreases n
  {
    if n == 0 {
      assert bits + Repeat(0, b) == bits;
    } else {
      assert (bits + Repeat(n, b))[..|bits| + n - 1] == bits + Repeat(n - 1, b);
      NullsRun(bits, n - 1, b);
    }
  }

  /** The bitmap stays in step, and says which of the new elements are null. */
  lemma BitmapGrows(v: ArrayView, w: ArrayView, n: nat, isValid: bool)
    requires BuiltBitmap(v) && v.length >= 0 && v.offset == w.offset == 0 && w.first == BitmapWith(v, n, isValid)
    requires w.length == v.length + n && w.nullCount == v.nullCount + if isValid then 0 else n
    ensures BuiltBitmap(w)
    ensures forall i | 0 <= i < v.length :: IsNull(w, i) == IsNull(v, i)
    ensures forall i | v.length <= i < w.length :: IsNull(w, i) == !isValid
  {
    hide BytesForBits;
    NoBytes();
    if v.first.present {
      NullsRun(v.first.cells, n, isValid);
    } else if !isValid {
      NullsRun([], v.length, true);
      assert [] + Repeat(v.length, true) == Repeat(v.length, true);
      NullsRun(Repeat(v.length, true), n, false);
    }
  }

  lemma NoBytes()
    ensures BytesForBits(0) == 0
  {
  }

  lemma SizeGrows(size: int, width: int, n: int, m: int)
    requires SizeIs(size, width, n)
    ensures SizeIs(size + width * m, width, n + m)
  {
  }

  /** Repeating the last offset. */
  lemma OffsetsRepeat(b: Buffer<int>, large: bool, n: nat, m: nat)
    requires Offsets(b, large, n)
    ensures var w := Grown(b, Repeat(m, b.cells[n]), OffsetWidth(large));
      Offsets(w, large, n + m) && w.cells[n + m] == b.cells[n]
  {
  }

  lemma GrownPrefix(b: Buffer<int>, more: seq<int>, width: nat)
    ensures Prefix(b.cells, Grown(b, more, width).cells)
  {
  }

  lemma SecondGrows(v: ArrayView, n: nat)
    requires BuiltOwn(v)
    ensures Prefix(v.second.cells, EmptySecond(v, n).cells)
    ensures v.kind.Ints? ==>
      SizeIs(EmptySecond(v, n).size, v.kind.width, v.length + n) &&
      |EmptySecond(v, n).cells| == v.length + n
    ensures v.kind.Bools? ==>
      (EmptySecond(v, n).size == BytesForBits(v.length + n) <==> BitsFit(v, n)) &&
        |EmptySecond(v, n).cells| == v.length + n
    ensures v.kind.FixedBlobs? ==>
      SizeIs(|EmptySecond(v, n).cells|, v.kind.blobSize, v.length + n) &&
        EmptySecond(v, n).size == |EmptySecond(v, n).cells|
    ensures v.kind.Blobs? || v.kind.Lists? ==>
      Offsets(EmptySecond(v, n), v.kind.large, v.length + n) &&
        EmptySecond(v, n).cells[v.length + n] == v.second.cells[v.length]
  {
    hide BuiltBitmap, Offsets, SizeIs;
    if v.kind.Ints? {
      SizeGrows(v.second.size, v.kind.width, v.length, n);
    } else if v.kind.FixedBlobs? {
      SizeGrows(|v.second.cells|, v.kind.blobSize, v.length, n);
    } else if v.kind.Blobs? || v.kind.Lists? {
      OffsetsCount(v.second, v.kind.large, v.length);
      OffsetsRepeat(v.second, v.kind.large, v.length, n);
    }
  }

  lemma OffsetsCount(b: Buffer<int>, large: bool, n: nat)
    requires Offsets(b, large, n)
    ensures |b.cells| == n + 1
  {
  }

  lemma EmptyParts(v: ArrayView, n: nat, isValid: bool)
    requires n > 0
    ensures var w := AddEmpty(v, n, isValid);
      && w.first == BitmapWith(v, n, isValid) && w.second == EmptySecond(v, n) && w.third == v.third &&
        w.offset == v.offset
      && w.nullCount == v.nullCount + (if isValid then 0 else n)
      && forall j | 0 <= j < |v.children| :: w.children[j] == EmptyChild(v, n, j)
  {
  }

  /** What happens to child `j`. */
  function EmptyChild(v: ArrayView, n: nat, j: nat): ArrayView
    requires j < |v.children|
  {
    match v.kind
    case FixedLists(size) => AddEmpty(v.children[j], n * size, true)
    case Structs => AddEmpty(v.children[j], n, true)
    case _ => v.children[j]
  }

  lemma {:induction false} SameContinues(v: ArrayView)
    ensures Continues(v, v)
    decreases v
  {
    forall i | 0 <= i < |v.children| ensures Continues(v.children[i], v.children[i]) { SameContinues(v.children[i]); }
  }

  lemma EmptyOwn(v: ArrayView, n: nat, isValid: bool)
    requires BuiltOwn(v) && n > 0
    ensures ContinuesOwn(v, AddEmpty(v, n, isValid))
    ensures BuiltOwn(AddEmpty(v, n, isValid)) <==> !v.kind.Bools? || BitsFit(v, n)
    ensures forall i | v.length <= i < v.length + n :: IsNull(AddEmpty(v, n, isValid), i) == !isValid
  {
    hide AddEmpty, BuiltBitmap, IsNull, Offsets, SizeIs, Prefix, BitmapWith, EmptySecond;
    var w := AddEmpty(v, n, isValid);
    EmptyParts(v, n, isValid);
    BitmapGrows(v, w, n, isValid);
    SecondGrows(v, n);
    SamePrefix(v.third.cells);
    if v.kind.Ints? || v.kind.Bools? { ZerosInRange(v, n); }
    if v.kind.FixedLists? {
      assert (v.length + n) * v.kind.listSize == v.length * v.kind.listSize + n * v.kind.listSize;
    }
  }

  lemma SamePrefix<T>(s: seq<T>)
    ensures Prefix(s, s)
  {
  }

  lemma ZerosInRange(v: ArrayView, n: nat)
    requires BuiltOwn(v) && (v.kind.Ints? || v.kind.Bools?)
    ensures |EmptySecond(v, n).cells| == v.length + n
    ensures v.kind.Ints? ==> forall i | 0 <= i < v.length + n ::
      IntMin(v.kind.width, v.kind.signed) <= EmptySecond(v, n).cells[i] <= IntMax(v.kind.width, v.kind.signed)
    ensures v.kind.Bools? ==> forall i | 0 <= i < v.length + n :: 0 <= EmptySecond(v, n).cells[i] <= 1
  {
    hide BuiltBitmap, SizeIs;
  }

  /** Appending nulls or empty elements keeps everything that was there, and keeps everything in order
      exactly when it stays inside the bit buffers. */
  lemma {:induction false} EmptyContinues(v: ArrayView, n: nat, isValid: bool)
    requires Built(v)
    ensures Continues(v, AddEmpty(v, n, isValid))
    ensures Built(AddEmpty(v, n, isValid)) <==> EmptyFits(v, n)
    decreases v
  {
    hide AddEmpty, BuiltOwn, ContinuesOwn;
    var w := AddEmpty(v, n, isValid);
    if n == 0 {
      EmptyNothing(v, isValid);
      SameContinues(v);
    } else {
      EmptyOwn(v, n, isValid);
      EmptyParts(v, n, isValid);
      forall j | 0 <= j < |v.children|
        ensures Continues(v.children[j], w.children[j]) && (Built(w.children[j]) <==> ChildFits(v, n, j))
      {
        if v.kind.FixedLists? {
          EmptyContinues(v.children[j], n * v.kind.listSize, true);
        } else if v.kind.Structs? {
          EmptyContinues(v.children[j], n, true);
        } else {
          SameContinues(v.children[j]);
        }
      }
    }
  }

  predicate ChildFits(v: ArrayView, n: nat, j: nat)
    requires j < |v.children|
  {
    match v.kind
    case FixedLists(size) => EmptyFits(v.children[j], n * size)
    case Structs => EmptyFits(v.children[j], n)
    case _ => true
  }

  lemma EmptyNothing(v: ArrayView, isValid: bool)
    ensures AddEmpty(v, 0, isValid) == v
  {
  }

  // ------------------------------------------------------------- the elements appended

  /** No child is ahead of its parent. */
  predicate AlignedOwn(v: ArrayView)
  {
    && (v.kind.Structs? ==> forall i | 0 <= i < |v.children| :: v.children[i].length == v.length)
    && (v.kind.FixedLists? ==> |v.children| == 1 && v.children[0].length == v.length * v.kind.listSize)
  }

  predicate Aligned(v: ArrayView)
    decreases v
  {
    AlignedOwn(v) && (v.kind.Structs? || v.kind.FixedLists? ==>
      forall i | 0 <= i < |v.children| :: Aligned(v.children[i]))
  }

  /** The empty element of an array of this shape. */
  function EmptyItem(v: ArrayView): Item
    decreases v, 1
  {
    match v.kind
    case Ints(_, _) => Number(0)
    case Bools => Number(0)
    case FixedBlobs(size) => Blob(Repeat(size, 0))
    case Blobs(_) => Blob([])
    case Lists(_) => Listed([])
    case FixedLists(size) => if |v.children| != 1 then Listed([])
      else Listed(Repeat(size, Some(EmptyItem(v.children[0]))))
    case Structs => Record(EmptyRow(v))
    case RunEnds => Listed([])
  }

  function EmptyRow(v: ArrayView): (s: seq<Option<Item>>)
    ensures |s| == |v.children|
    decreases v, 0
  {
    seq(|v.children|, j requires 0 <= j < |v.children| => Some(EmptyItem(v.children[j])))
  }

  /** Element `p`, beyond the end, as appending empty elements makes it: a struct or a fixed-size list
      takes over what its children already hold there. */
  function EmptyAt(v: ArrayView, p: int): Item
    decreases v, 1
  {
    match v.kind
    case FixedLists(size) =>
      if |v.children| != 1 then Listed([])
      else Listed(seq(size, k requires 0 <= k < size => HeldAt(v.children[0], p * size + k)))
    case Structs => Record(seq(|v.children|, j requires 0 <= j < |v.children| => HeldAt(v.children[j], p)))
    case _ => EmptyItem(v)
  }

  function HeldAt(c: ArrayView, p: int): Option<Item>
    decreases c, 2
  {
    if p < c.length then ReadAt(c, p) else Some(EmptyAt(c, p))
  }

  /** Where no child is ahead of its parent that is the empty element of the shape. */
  lemma {:induction false} AlignedIsEmpty(v: ArrayView, p: int)
    requires Built(v) && Aligned(v) && p >= v.length
    ensures EmptyAt(v, p) == EmptyItem(v)
    decreases v
  {
    hide BuiltOwn, ReadAt;
    if v.kind.FixedLists? {
      var size := v.kind.listSize;
      NotRuns(v);
      Products(v.length, p, size);
      var items := EmptyAt(v, p).items;
      forall k | 0 <= k < |items| ensures items[k] == Some(EmptyItem(v.children[0])) {
        AlignedIsEmpty(v.children[0], p * size + k);
        assert items[k] == HeldAt(v.children[0], p * size + k);
        assert p * size + k >= v.children[0].length;
      }
      assert items == Repeat(size, Some(EmptyItem(v.children[0])));
    } else if v.kind.Structs? {
      var fields := EmptyAt(v, p).fields;
      forall j | 0 <= j < |fields| ensures fields[j] == Some(EmptyItem(v.children[j])) {
        AlignedIsEmpty(v.children[j], p);
        assert fields[j] == HeldAt(v.children[j], p);
      }
      assert fields == EmptyRow(v);
    }
  }

  lemma ReadZeros(v: ArrayView, n: nat, i: int)
    requires BuiltOwn(v) && n > 0 && v.length <= i < v.length + n
    requires v.kind.Ints? || v.kind.Bools? || v.kind.FixedBlobs? || v.kind.Blobs? || v.kind.Lists?
    ensures ReadAt(AddEmpty(v, n, true), i) == Some(EmptyItem(v))
  {
    hide AddEmpty, BuiltBitmap, IsNull, Offsets, SizeIs, BitmapWith, EmptySecond, ReadAt, Prefix;
    var w := AddEmpty(v, n, true);
    EmptyOwn(v, n, true);
    EmptyParts(v, n, true);
    ReadLeaf(w, i);
    ReadNested(w, i);
    ZeroCells(v, n, i);
  }

  lemma ZeroCells(v: ArrayView, n: nat, i: int)
    requires BuiltOwn(v) && v.length <= i < v.length + n
    ensures var b := EmptySecond(v, n);
      && (v.kind.Ints? || v.kind.Bools? ==> Cell(b, i) == 0)
      && (v.kind.Blobs? || v.kind.Lists? ==> Cell(b, i) == Cell(b, i + 1))
      && (v.kind.FixedBlobs? ==> CellsOf(b, i * v.kind.blobSize, v.kind.blobSize) == Repeat(v.kind.blobSize, 0))
  {
    hide BuiltBitmap, CellsOf, SizeIs;
    if v.kind.FixedBlobs? {
      var size := v.kind.blobSize;
      SizeEquals(|v.second.cells|, size, v.length);
      BlobPlace(v.length, i, n, size);
      ZeroTail(v.second, size * n, i * size, size);
    }
  }

  lemma BlobPlace(length: nat, i: int, n: nat, size: nat)
    requires length <= i < length + n
    ensures size * length <= i * size && i * size + size <= size * length + size * n
  {
    Products(length, i, size);
    Products(i + 1, length + n, size);
    assert size * (i + 1) == i * size + size;
    assert size * (length + n) == size * length + size * n;
  }

  lemma Products(a: int, b: int, size: nat)
    requires 0 <= a <= b
    ensures size * a <= size * b
  {
  }

  lemma ZeroTail(b: Buffer<int>, m: nat, at: int, k: nat)
    requires |b.cells| <= at && at + k <= |b.cells| + m
    ensures CellsOf(Grown(b, Repeat(m, 0), 1), at, k) == Repeat(k, 0)
  {
    var w := Grown(b, Repeat(m, 0), 1);
    var s := CellsOf(w, at, k);
    forall j | 0 <= j < k ensures s[j] == 0 {
      assert s[j] == w.cells[at + j] == Repeat(m, 0)[at + j - |b.cells|];
    }
  }

  /** What a reader finds in the elements appended: nothing in a null, and what `EmptyAt` says in the
      others. */
  lemma {:induction false} ReadAppended(v: ArrayView, n: nat, isValid: bool, i: int)
    requires Built(v) && v.length <= i < v.length + n
    ensures ReadAt(AddEmpty(v, n, isValid), i) == if isValid then Some(EmptyAt(v, i)) else None
    decreases v, 1
  {
    hide AddEmpty, BuiltOwn, IsNull, ReadAt, HeldAt, EmptyItem;
    var w := AddEmpty(v, n, isValid);
    EmptyOwn(v, n, isValid);
    if !isValid {
      ReadNull(w, i);
    } else if v.kind.FixedLists? {
      ListAppended(v, n, i);
    } else if v.kind.Structs? {
      RecordAppended(v, n, i);
    } else {
      NotRuns(v);
      ReadZeros(v, n, i);
    }
  }

  lemma NotRuns(v: ArrayView)
    requires BuiltOwn(v)
    ensures !v.kind.RunEnds? && v.offset == 0 && v.length >= 0
  {
  }

  lemma {:induction false} ListAppended(v: ArrayView, n: nat, i: int)
    requires Built(v) && v.length <= i < v.length + n && v.kind.FixedLists?
    requires !IsNull(AddEmpty(v, n, true), i)
    ensures ReadAt(AddEmpty(v, n, true), i) == Some(EmptyAt(v, i))
    decreases v, 0
  {
    hide AddEmpty, BuiltOwn, IsNull, ReadAt, HeldAt;
    var w, size := AddEmpty(v, n, true), v.kind.listSize;
    EmptyParts(v, n, true);
    NotRuns(v);
    ListBehind(v);
    ReadNested(w, i);
    BlobPlace(v.length, i, n, size);
    var read, items := ReadRange(w.children[0], i * size, size), EmptyAt(v, i).items;
    forall k | 0 <= k < size ensures read[k] == items[k] {
      HeldAppended(v.children[0], n * size, i * size + k);
    }
    assert read == items;
  }

  lemma {:induction false} RecordAppended(v: ArrayView, n: nat, i: int)
    requires Built(v) && v.length <= i < v.length + n && v.kind.Structs?
    requires !IsNull(AddEmpty(v, n, true), i)
    ensures ReadAt(AddEmpty(v, n, true), i) == Some(EmptyAt(v, i))
    decreases v, 0
  {
    hide AddEmpty, BuiltOwn, IsNull, ReadAt, HeldAt;
    var w := AddEmpty(v, n, true);
    EmptyParts(v, n, true);
    NotRuns(v);
    RowBehind(v);
    ReadNested(w, i);
    var row, fields := ReadRow(w, i), EmptyAt(v, i).fields;
    forall j | 0 <= j < |v.children| ensures row[j] == fields[j] {
      HeldAppended(v.children[j], n, i);
    }
    assert row == fields;
  }

  lemma {:induction false} HeldAppended(c: ArrayView, n: nat, p: int)
    requires Built(c) && 0 <= p < c.length + n
    ensures ReadAt(AddEmpty(c, n, true), p) == HeldAt(c, p)
    decreases c, 2
  {
    hide AddEmpty, BuiltOwn, ReadAt, EmptyAt;
    if p < c.length {
      EmptyContinues(c, n, true);
      ReadKept(c, AddEmpty(c, n, true), p);
    } else {
      ReadAppended(c, n, true, p);
    }
  }

  lemma ListBehind(v: ArrayView)
    requires BuiltOwn(v) && v.kind.FixedLists?
    ensures |v.children| == 1 && v.children[0].length >= v.length * v.kind.listSize
  {
  }

  lemma RowBehind(v: ArrayView)
    requires BuiltOwn(v) && v.kind.Structs?
    ensures forall j | 0 <= j < |v.children| :: v.children[j].length >= v.length
  {
  }

  /** The elements that appending `n` nulls, or `n` empty elements, adds. */
  function Emptied(v: ArrayView, n: nat, isValid: bool): (s: seq<Option<Item>>)
    ensures |s| == n
  {
    seq(n, i => if isValid then Some(EmptyAt(v, v.length + i)) else None)
  }

  /** The contents after appending nulls, or empty elements. */
  lemma EmptyAppends(v: ArrayView, n: nat, isValid: bool)
    requires Built(v) && v.length >= 0
    ensures Contents(AddEmpty(v, n, isValid)) == Contents(v) + Emptied(v, n, isValid)
  {
    hide AddEmpty, ReadAt, EmptyAt, Built;
    var w := AddEmpty(v, n, isValid);
    EmptyContinues(v, n, isValid);
    ContentsKept(v, w);
    forall i | v.length <= i < v.length + n ensures Contents(w)[i] == Emptied(v, n, isValid)[i - v.length] {
      ReadAppended(v, n, isValid, i);
    }
    assert Contents(w) == Contents(w)[..v.length] + Contents(w)[v.length..];
  }

  lemma NullsAdded(v: ArrayView, n: nat)
    ensures Emptied(v, n, false) == Repeat(n, None)
  {
  }

  lemma AlignedAdded(v: ArrayView, n: nat)
    requires Built(v) && Aligned(v)
    ensures Emptied(v, n, true) == Repeat(n, Some(EmptyItem(v)))
  {
    hide EmptyAt, EmptyItem, Built, Aligned;
    forall i | 0 <= i < n ensures Emptied(v, n, true)[i] == Some(EmptyItem(v)) { AlignedIsEmpty(v, v.length + i); }
  }

  // ------------------------------------------------------------------- single elements

  /** One more valid element, whose values have been written. */
  function OneMore(v: ArrayView, second: Buffer<int>, third: Buffer<int>): ArrayView
  {
    v.(first := BitmapWith(v, 1, true), second := second, third := third, length := v.length + 1)
  }

  /** A signed 64-bit value; nothing when it is out of the type's range or the type takes no numbers. */
  function AddInt(v: ArrayView, x: int): Option<ArrayView>
  {
    if v.kind.Bools? then Some(OneMore(v, BitsGrown(v, [if x != 0 then 1 else 0]), v.third))
    else if !v.kind.Ints? then None
    else if !v.kind.signed && !(0 <= x <= INT64_MAX) then None
    else if !v.kind.signed then AddUInt(v, x)
    else if !(IntMin(v.kind.width, true) <= x <= IntMax(v.kind.width, true)) then None
    else Some(OneMore(v, Grown(v.second, [x], v.kind.width), v.third))
  }

  /** An unsigned 64-bit value. */
  function AddUInt(v: ArrayView, x: int): Option<ArrayView>
  {
    if v.kind.Bools? then Some(OneMore(v, BitsGrown(v, [if x != 0 then 1 else 0]), v.third))
    else if !v.kind.Ints? then None
    else if v.kind.signed && x > INT64_MAX then None
    else if x > IntMax(v.kind.width, v.kind.signed) then None
    else Some(OneMore(v, Grown(v.second, [x], v.kind.width), v.third))
  }

  /** A byte string; nothing when 32-bit offsets overflow or a fixed size does not match. */
  function AddBytes(v: ArrayView, bytes: seq<int>): Option<ArrayView>
  {
    match v.kind
    case Blobs(large) =>
      var next := LastOffset(v) + |bytes|;
      if !large && next > INT32_MAX then None
      else Some(OneMore(v, Grown(v.second, [next], OffsetWidth(large)), Grown(v.third, bytes, 1)))
    case FixedBlobs(size) =>
      if |bytes| != size then None else Some(OneMore(v, Grown(v.second, bytes, 1), v.third))
    case _ => None
  }

  /** Completes an element whose children have been appended before. */
  function AddElement(v: ArrayView): Option<ArrayView>
  {
    match v.kind
    case Lists(large) =>
      if |v.children| != 1 || (!large && v.children[0].length > INT32_MAX) then None
      else Some(OneMore(v, Grown(v.second, [v.children[0].length], OffsetWidth(large)), v.third))
    case FixedLists(size) =>
      if |v.children| != 1 || v.children[0].length != (v.length + 1) * size then None
        else Some(OneMore(v, v.second, v.third))
    case Structs =>
      if exists i :: 0 <= i < |v.children| && v.children[i].length != v.length + 1 then None
        else Some(OneMore(v, v.second, v.third))
    case _ => None
  }

  /** `w` is `v` with one more element. */
  ghost predicate Appends(v: ArrayView, w: ArrayView, item: Item)
  {
    && Built(w) && Continues(v, w) && w.length == v.length + 1 && v.length >= 0
    && Contents(w) == Contents(v) + [Some(item)]
  }

  lemma AppendsOne(v: ArrayView, w: ArrayView, item: Item)
    requires Built(v) && BuiltOwn(w) && ContinuesOwn(v, w) && w.children == v.children && w.length == v.length + 1
    requires ReadAt(w, v.length) == Some(item)
    ensures Appends(v, w, item)
  {
    hide BuiltOwn, ContinuesOwn, ReadAt;
    NotRuns(v);
    forall i | 0 <= i < |v.children| ensures Built(w.children[i]) && Continues(v.children[i], w.children[i]) {
      SameContinues(v.children[i]);
    }
    assert |w.children| == |v.children|;
    assert Continues(v, w);
    ContentsKept(v, w);
    assert Contents(w) == Contents(w)[..v.length] + [Contents(w)[v.length]];
  }

  /** The bitmap part of one more element. */
  lemma OneMoreBits(v: ArrayView, second: Buffer<int>, third: Buffer<int>)
    requires BuiltOwn(v)
    ensures var w := OneMore(v, second, third);
      && BuiltBitmap(w) && w.offset == 0 && !IsNull(w, v.length) && forall i | 0 <= i < v.length ::
        IsNull(v, i) == IsNull(w, i)
  {
    hide BuiltBitmap, IsNull, BitmapWith, Offsets, SizeIs;
    BitmapGrows(v, OneMore(v, second, third), 1, true);
  }

  lemma IntAppended(v: ArrayView, x: int)
    requires Built(v) && v.kind.Ints? && IntMin(v.kind.width, v.kind.signed) <= x <= IntMax(v.kind.width, v.kind.signed)
    ensures Appends(v, OneMore(v, Grown(v.second, [x], v.kind.width), v.third), Number(x))
  {
    hide BuiltBitmap, IsNull, ReadAt, Appends, BitmapWith;
    var second := Grown(v.second, [x], v.kind.width);
    var w := OneMore(v, second, v.third);
    OneMoreBits(v, second, v.third);
    SizeGrows(v.second.size, v.kind.width, v.length, 1);
    ReadLeaf(w, v.length);
    AppendsOne(v, w, Number(x));
  }

  lemma BoolAppended(v: ArrayView, bit: int)
    requires Built(v) && v.kind.Bools? && 0 <= bit <= 1
    ensures Appends(v, OneMore(v, BitsGrown(v, [bit]), v.third), Number(bit))
  {
    hide BuiltBitmap, IsNull, ReadAt, Appends, BitmapWith;
    var second := BitsGrown(v, [bit]);
    var w := OneMore(v, second, v.third);
    OneMoreBits(v, second, v.third);
    ReadLeaf(w, v.length);
    AppendsOne(v, w, Number(bit));
  }

  /** Whether an array takes a number, and what it makes of it: a bool array takes every number. */
  predicate TakesNumber(kind: Kind, x: int)
  {
    kind.Bools? || (kind.Ints? && IntMin(kind.width, kind.signed) <= x <= IntMax(kind.width, kind.signed))
  }

  function Stored(kind: Kind, x: int): Item
  {
    Number(if kind.Bools? then (if x != 0 then 1 else 0) else x)
  }

  /** A number is appended exactly when the array takes numbers and it is in the type's range. */
  lemma IntAppends(v: ArrayView, x: int)
    requires Built(v) && -INT64_MAX - 1 <= x <= INT64_MAX
    ensures AddInt(v, x).Some? <==> TakesNumber(v.kind, x)
    ensures AddInt(v, x).Some? ==> Appends(v, AddInt(v, x).value, Stored(v.kind, x))
  {
    hide Built, Appends;
    if v.kind.Bools? { BoolAppended(v, if x != 0 then 1 else 0); } else if AddInt(v, x).Some? { IntAppended(v, x); }
  }

  lemma UIntAppends(v: ArrayView, x: int)
    requires Built(v) && 0 <= x <= 0xffff_ffff_ffff_ffff
    ensures AddUInt(v, x).Some? <==> TakesNumber(v.kind, x)
    ensures AddUInt(v, x).Some? ==> Appends(v, AddUInt(v, x).value, Stored(v.kind, x))
  {
    hide Built, Appends;
    if v.kind.Bools? { BoolAppended(v, if x != 0 then 1 else 0); } else if AddUInt(v, x).Some? { IntAppended(v, x); }
  }

  lemma OffsetsAppend(b: Buffer<int>, large: bool, n: nat, x: int)
    requires Offsets(b, large, n) && b.cells[n] <= x && (large || x <= INT32_MAX)
    ensures Offsets(Grown(b, [x], OffsetWidth(large)), large, n + 1) &&
      Grown(b, [x], OffsetWidth(large)).cells[n + 1] == x
  {
  }

  /** A byte string is appended exactly when the array takes byte strings of its length and the offsets
      still fit. */
  lemma BytesAppend(v: ArrayView, bytes: seq<int>)
    requires Built(v)
    ensures AddBytes(v, bytes).Some? <==>
      (v.kind.FixedBlobs? && |bytes| == v.kind.blobSize) ||
      (v.kind.Blobs? && (v.kind.large || |v.third.cells| + |bytes| <= INT32_MAX))
    ensures AddBytes(v, bytes).Some? ==> Appends(v, AddBytes(v, bytes).value, Blob(bytes))
  {
    hide Built, Appends, SizeIs, BuiltBitmap;
    assert BuiltOwn(v) by { BuiltHere(v); }
    if v.kind.Blobs? && AddBytes(v, bytes).Some? { BlobAppended(v, bytes); }
    if v.kind.FixedBlobs? && AddBytes(v, bytes).Some? { FixedBlobAppended(v, bytes); }
  }

  lemma BuiltHere(v: ArrayView)
    requires Built(v)
    ensures BuiltOwn(v)
  {
  }

  lemma GrownCells(b: Buffer<int>, more: seq<int>, width: nat)
    ensures CellsOf(Grown(b, more, width), |b.cells|, |more|) == more
  {
    var s := CellsOf(Grown(b, more, width), |b.cells|, |more|);
    forall j | 0 <= j < |more| ensures s[j] == more[j] {
      assert s[j] == (b.cells + more)[|b.cells| + j];
    }
  }

  lemma BlobAppended(v: ArrayView, bytes: seq<int>)
    requires Built(v) && v.kind.Blobs? && AddBytes(v, bytes).Some?
    ensures Appends(v, AddBytes(v, bytes).value, Blob(bytes))
  {
    hide BuiltBitmap, IsNull, ReadAt, Appends, BitmapWith, Offsets;
    var w, n, last := AddBytes(v, bytes).value, v.length, |v.third.cells|;
    OffsetsCount(v.second, v.kind.large, n);
    OneMoreBits(v, w.second, w.third);
    OffsetsAppend(v.second, v.kind.large, n, last + |bytes|);
    GrownPrefix(v.second, [last + |bytes|], OffsetWidth(v.kind.large));
    GrownPrefix(v.third, bytes, 1);
    ReadLeaf(w, n);
    GrownCells(v.third, bytes, 1);
    AppendsOne(v, w, Blob(bytes));
  }

  lemma FixedBlobAppended(v: ArrayView, bytes: seq<int>)
    requires Built(v) && v.kind.FixedBlobs? && |bytes| == v.kind.blobSize
    ensures Appends(v, AddBytes(v, bytes).value, Blob(bytes))
  {
    hide BuiltBitmap, IsNull, ReadAt, Appends, BitmapWith;
    var w, n, size := AddBytes(v, bytes).value, v.length, v.kind.blobSize;
    OneMoreBits(v, w.second, w.third);
    SizeGrows(|v.second.cells|, size, n, 1);
    GrownPrefix(v.second, bytes, 1);
    SamePrefix(v.third.cells);
    ReadLeaf(w, n);
    assert n * size == |v.second.cells|;
    GrownCells(v.second, bytes, 1);
    AppendsOne(v, w, Blob(bytes));
  }

  // -------------------------------------------------------------------- nested elements

  /** The element that completing would add. */
  function Pending(v: ArrayView): Item
  {
    match v.kind
    case Lists(_) => if |v.children| != 1 then Listed([])
      else Listed(ReadRange(v.children[0], LastOffset(v), v.children[0].length - LastOffset(v)))
    case FixedLists(size) => if |v.children| != 1 then Listed([])
      else Listed(ReadRange(v.children[0], v.length * size, size))
    case _ => Record(ReadRow(v, v.length))
  }

  /** Completing an element adds what its children have received since the last one. It succeeds
      exactly when each of them has received what one element takes, and list offsets still fit. */
  lemma ElementFinishes(v: ArrayView)
    requires Built(v)
    ensures AddElement(v).Some? <==>
      || (v.kind.Lists? && (v.kind.large || v.children[0].length <= INT32_MAX))
      || (v.kind.FixedLists? && v.children[0].length == (v.length + 1) * v.kind.listSize)
      || (v.kind.Structs? && forall i | 0 <= i < |v.children| :: v.children[i].length == v.length + 1)
    ensures AddElement(v).Some? ==> Appends(v, AddElement(v).value, Pending(v))
  {
    hide Built, Appends, SizeIs, BuiltBitmap, Offsets, Pending;
    BuiltHere(v);
    if AddElement(v).Some? {
      if v.kind.Lists? { ListFinishes(v); } else { PartsFinish(v); }
    }
  }

  lemma ListFinishes(v: ArrayView)
    requires Built(v) && v.kind.Lists? && AddElement(v).Some?
    ensures Appends(v, AddElement(v).value, Pending(v))
  {
    hide BuiltBitmap, IsNull, ReadAt, Appends, BitmapWith, Offsets, ReadRange;
    var w, n, size := AddElement(v).value, v.length, v.children[0].length;
    OffsetsCount(v.second, v.kind.large, n);
    OneMoreBits(v, w.second, w.third);
    OffsetsAppend(v.second, v.kind.large, n, size);
    GrownPrefix(v.second, [size], OffsetWidth(v.kind.large));
    SamePrefix(v.third.cells);
    ReadNested(w, n);
    AppendsOne(v, w, Pending(v));
  }

  lemma PartsFinish(v: ArrayView)
    requires Built(v) && (v.kind.FixedLists? || v.kind.Structs?) && AddElement(v).Some?
    ensures Appends(v, AddElement(v).value, Pending(v))
  {
    hide BuiltBitmap, IsNull, ReadAt, Appends, BitmapWith, ReadRange, ReadRow;
    var w := AddElement(v).value;
    OneMoreBits(v, w.second, w.third);
    SamePrefix(v.second.cells);
    SamePrefix(v.third.cells);
    ReadNested(w, v.length);
    assert v.kind.Structs? ==> ReadRow(w, v.length) == ReadRow(v, v.length) by { SameRow(v, w, v.length); }
    AppendsOne(v, w, Pending(v));
  }

  lemma SameRow(v: ArrayView, w: ArrayView, i: int)
    requires v.children == w.children
    ensures ReadRow(v, i) == ReadRow(w, i)
  {
  }

  // --------------------------------------------------------------- nulls and validation

  /** The null count is the number of nulls a reader finds. */
  lemma NullCount(v: ArrayView)
    requires Built(v) && v.length >= 0
    ensures v.nullCount == NoneCount(Contents(v))
  {
    hide ReadAt, SizeIs, Offsets;
    BuiltHere(v);
    NotRuns(v);
    forall i | 0 <= i < v.length ensures Contents(v)[i] == None <==> IsNull(v, i) {
      NullIsNone(v, i);
    }
    if v.first.present {
      SameNulls(v.first.cells, Contents(v));
    } else {
      NoNulls(Contents(v));
    }
  }

  function NoneCount(s: seq<Option<Item>>): nat
  {
    if s == [] then 0 else NoneCount(s[..|s| - 1]) + (if s[|s| - 1] == None then 1 else 0)
  }

  lemma NullIsNone(v: ArrayView, i: int)
    requires Built(v) && 0 <= i < v.length
    ensures ReadAt(v, i) == None <==> IsNull(v, i)
  {
  }

  lemma {:induction false} SameNulls(bits: seq<bool>, s: seq<Option<Item>>)
    requires |bits| == |s| && forall i | 0 <= i < |s| :: s[i] == None <==> !bits[i]
    ensures Nulls(bits) == NoneCount(s)
  {
    if bits != [] { SameNulls(bits[..|bits| - 1], s[..|s| - 1]); }
  }

  lemma {:induction false} NoNulls(s: seq<Option<Item>>)
    requires forall i | 0 <= i < |s| :: s[i].Some?
    ensures NoneCount(s) == 0
  {
    if s != [] { NoNulls(s[..|s| - 1]); }
  }

  /** Every length is a 64-bit number. */
  predicate Fits(v: ArrayView)
    decreases v
  {
    v.length <= INT64_MAX && forall i | 0 <= i < |v.children| :: Fits(v.children[i])
  }

  lemma ProductNotNegative(a: int, b: int)
    requires a >= 0 && b >= 0
    ensures a * b >= 0
  {
  }

  lemma EnoughSize<T>(b: Buffer<T>, least: int)
    requires b.size >= least && b.size >= 0
    ensures Sized(b, least) == Some(b)
  {
  }

  lemma BuiltBuffers(v: ArrayView)
    requires BuiltOwn(v)
    ensures v.offset >= 0 && v.length >= 0 && MinimalBuffers(v) == Some(v) && MinimalChildren(v)
  {
    hide BytesForBits, SizeIs;
    var n := v.length;
    if v.first.present { EnoughSize(v.first, BytesForBits(n)); }
    if v.kind.Ints? {
      SizeEquals(v.second.size, v.kind.width, n);
      ProductNotNegative(v.kind.width, n);
      EnoughSize(v.second, v.kind.width * n);
    } else if v.kind.FixedBlobs? {
      SizeEquals(v.second.size, v.kind.blobSize, n);
      EnoughSize(v.second, v.kind.blobSize * n);
    } else if v.kind.Blobs? || v.kind.Lists? {
      SizeEquals(v.second.size, OffsetWidth(v.kind.large), n + 1);
      ProductNotNegative(OffsetWidth(v.kind.large), n + 1);
      EnoughSize(v.second, SecondSize(v.kind, n).value);
    }
  }

  lemma {:induction false} AllMinimal(vs: seq<ArrayView>)
    requires forall i | 0 <= i < |vs| :: Minimal(vs[i]) == Some(vs[i])
    ensures MinimalAll(vs) == Some(vs)
  {
    hide Minimal;
    if vs != [] {
      assert forall i | 0 <= i < |vs[1..]| :: vs[1..][i] == vs[i + 1];
      AllMinimal(vs[1..]);
      assert [vs[0]] + vs[1..] == vs;
    }
  }

  lemma {:induction false} AllDefault(vs: seq<ArrayView>)
    requires forall i | 0 <= i < |vs| :: Default(vs[i]) == Some(vs[i])
    ensures DefaultAll(vs) == Some(vs)
  {
    hide Default;
    if vs != [] {
      assert forall i | 0 <= i < |vs[1..]| :: vs[1..][i] == vs[i + 1];
      AllDefault(vs[1..]);
      assert [vs[0]] + vs[1..] == vs;
    }
  }

  lemma {:induction false} BuiltIsMinimal(v: ArrayView)
    requires Built(v) && Fits(v)
    ensures Minimal(v) == Some(v)
    decreases v
  {
    hide MinimalBuffers, MinimalChildren, MinimalAll, BuiltOwn;
    BuiltBuffers(v);
    NotRuns(v);
    forall i | 0 <= i < |v.children| ensures Minimal(v.children[i]) == Some(v.children[i]) {
      BuiltIsMinimal(v.children[i]);
    }
    AllMinimal(v.children);
  }

  lemma BuiltDefaults(v: ArrayView)
    requires BuiltOwn(v)
    ensures v.offset >= 0 && v.length >= 0 && MinimalChildren(v) && DefaultOwn(v) == Some(v) && FullOwn(v)
  {
    hide SizeIs, BuiltBitmap, Cell, Increasing, Offsets;
    BuiltBuffers(v);
    if v.kind.Blobs? || v.kind.Lists? {
      var n := v.length;
      OffsetsFacts(v.second, v.kind.large, n, 0);
      OffsetsFacts(v.second, v.kind.large, n, n);
      LastCell(v.second, v.kind.large, n);
      OffsetsIncrease(v.second, v.kind.large, n);
    }
  }

  lemma LastCell(b: Buffer<int>, large: bool, n: nat)
    requires Offsets(b, large, n)
    ensures |b.cells| == n + 1 && Cell(b, n) == b.cells[n]
  {
  }

  lemma OffsetsIncrease(b: Buffer<int>, large: bool, n: nat)
    requires Offsets(b, large, n)
    ensures Increasing(b, 0, n)
  {
  }

  lemma {:induction false} BuiltIsDefault(v: ArrayView)
    requires Built(v) && Fits(v)
    ensures Default(v) == Some(v) && Full(v)
    decreases v
  {
    hide Minimal, MinimalChildren, DefaultOwn, DefaultAll, FullOwn, BuiltOwn;
    BuiltIsMinimal(v);
    BuiltDefaults(v);
    forall i | 0 <= i < |v.children| ensures Default(v.children[i]) == Some(v.children[i]) && Full(v.children[i]) {
      BuiltIsDefault(v.children[i]);
    }
    AllDefault(v.children);
  }

  lemma {:induction false} BuiltIsReadable(v: ArrayView)
    requires Built(v)
    ensures Readable(v)
    decreases v
  {
    hide SizeIs, Offsets;
    NoBytesAtAll(v);
    forall i | 0 <= i < |v.children| ensures Readable(v.children[i]) { BuiltIsReadable(v.children[i]); }
  }

  lemma NoBytesAtAll(v: ArrayView)
    requires BuiltOwn(v)
    ensures v.first.present && v.first.size == 0 ==> v.length == 0
  {
  }

  /** Whatever has been built is accepted at the full level as it is, and every part of it is safe to
      read. */
  lemma {:induction false} BuiltIsAccepted(v: ArrayView)
    requires Built(v) && Fits(v)
    ensures Accepted(v) == Some(v) && Safe(v)
  {
    hide Built, Fits, Default, Full, Safe, Readable;
    BuiltIsDefault(v);
    BuiltIsReadable(v);
    AcceptedIsSafe(v);
  }

  /** So is every slice of it, which is safe as well and reads as that part of the contents. */
  lemma BuiltSlices(v: ArrayView, from: nat, n: nat)
    requires Built(v) && Fits(v) && v.length >= 0 && from + n <= v.length
    ensures Accepted(Sliced(v, from, n)).Some? && Safe(Accepted(Sliced(v, from, n)).value)
    ensures Contents(Sliced(v, from, n)) == Contents(v)[from..from + n]
  {
    hide Fits, Accepted, Safe, ReadAt, Built;
    BuiltIsAccepted(v);
    BuiltIsReadable(v);
    ArrayLayout.SliceAccepted(v, from, n);
    ContentsSliced(v, from, n);
    SliceReadable(v, from, n);
    AcceptedIsSafe(Sliced(v, from, n));
  }

  lemma SliceReadable(v: ArrayView, from: nat, n: nat)
    requires Readable(v) && from + n <= v.length
    ensures Readable(Sliced(v, from, n))
  {
  }

  // ------------------------------------------------------------------------- a builder

  datatype Shape = Shape(kind: Kind, children: seq<Shape>)

  predicate ValidShape(s: Shape)
    decreases s
  {
    && !s.kind.RunEnds? && (s.kind.Ints? ==> s.kind.width in {1, 2, 4, 8})
    && (s.kind.Lists? || s.kind.FixedLists? ==> |s.children| == 1)
    && forall i | 0 <= i < |s.children| :: ValidShape(s.children[i])
  }

  /** An empty array of this shape, ready for appending: offset buffers start with one 0. */
  function NewArray(s: Shape): (v: ArrayView)
    ensures v.length == 0 && |v.children| == |s.children|
    decreases s
  {
    var second := if s.kind.Blobs? || s.kind.Lists? then Buffer(true, OffsetWidth(s.kind.large), [0])
      else Buffer(false, 0, []);
    ArrayView(s.kind, 0, 0, 0, Buffer(false, 0, []), second, Buffer(false, 0, []),
              seq(|s.children|, i requires 0 <= i < |s.children| => NewArray(s.children[i])))
  }

  lemma {:induction false} NewIsBuilt(s: Shape)
    requires ValidShape(s)
    ensures Built(NewArray(s)) && Aligned(NewArray(s)) && Contents(NewArray(s)) == []
    decreases s
  {
    hide ReadAt;
    var v := NewArray(s);
    forall i | 0 <= i < |v.children| ensures Built(v.children[i]) && Aligned(v.children[i]) {
      NewIsBuilt(s.children[i]);
    }
  }

  /** It does not always: the bit buffer of a new bool array is grown to one byte for nine elements, so
      the ninth bit is written behind it. */
  lemma NinthBoolDoesNotFit(isValid: bool)
    ensures ValidShape(Shape(Bools, [])) && Built(NewArray(Shape(Bools, [])))
    ensures !EmptyFits(NewArray(Shape(Bools, [])), 9)
    ensures !Built(AddEmpty(NewArray(Shape(Bools, [])), 9, isValid))
  {
    hide AddEmpty, Built;
    NewIsBuilt(Shape(Bools, []));
    EmptyContinues(NewArray(Shape(Bools, [])), 9, isValid);
  }

  /** Where in the tree an operation works: a child index at every level. */
  predicate ValidPath(v: ArrayView, path: seq<nat>)
    decreases v
  {
    path == [] || (path[0] < |v.children| && ValidPath(v.children[path[0]], path[1..]))
  }

  function At(v: ArrayView, path: seq<nat>): ArrayView
    requires ValidPath(v, path)
    decreases v
  {
    if path == [] then v else At(v.children[path[0]], path[1..])
  }

  function Put(v: ArrayView, path: seq<nat>, c: ArrayView): (w: ArrayView)
    requires ValidPath(v, path)
    decreases v
  {
    if path == [] then c else v.(children := v.children[path[0] := Put(v.children[path[0]], path[1..], c)])
  }

  /** Continuing one array of the tree continues the whole tree; every array above keeps its contents. */
  lemma {:induction false} PutContinues(v: ArrayView, path: seq<nat>, c: ArrayView)
    requires Built(v) && ValidPath(v, path) && Built(At(v, path)) && Built(c) && Continues(At(v, path), c)
    ensures Built(Put(v, path, c)) && Continues(v, Put(v, path, c))
    ensures ValidPath(Put(v, path, c), path) && At(Put(v, path, c), path) == c
    ensures path != [] ==> Put(v, path, c).length == v.length && Contents(Put(v, path, c)) == Contents(v)
    decreases v
  {
    hide ReadAt, BuiltBitmap, IsNull, Offsets, SizeIs;
    var w := Put(v, path, c);
    NotRuns(v);
    if path != [] {
      var i := path[0];
      PutContinues(v.children[i], path[1..], c);
      assert v.children[i].length <= w.children[i].length;
      PutKeepsOwn(v, w, i);
      forall j | 0 <= j < |v.children| ensures Built(w.children[j]) && Continues(v.children[j], w.children[j]) {
        if j != i { SameContinues(v.children[j]); }
      }
      assert Continues(v, w);
      ContentsKept(v, w);
    }
  }

  lemma PutKeepsOwn(v: ArrayView, w: ArrayView, i: nat)
    requires BuiltOwn(v) && i < |v.children| == |w.children| && w == v.(children := w.children)
    requires w.children == v.children[i := w.children[i]] && v.children[i].length <= w.children[i].length
    ensures BuiltOwn(w) && ContinuesOwn(v, w)
  {
    hide Offsets, SizeIs;
    SamePrefix(v.second.cells);
    SamePrefix(v.third.cells);
  }

  lemma {:induction false} BuiltBelow(v: ArrayView, path: seq<nat>)
    requires Built(v) && ValidPath(v, path)
    ensures Built(At(v, path)) && At(v, path).length >= 0
    decreases v
  {
    hide BuiltOwn;
    NotRuns(v);
    if path != [] { BuiltBelow(v.children[path[0]], path[1..]); }
  }

  class ArrayBuilder {
    var root: ArrayView

    ghost predicate Valid()
      reads this
    {
      Built(root) && root.length >= 0
    }

    constructor (shape: Shape)
      requires ValidShape(shape)
      ensures Valid() && root == NewArray(shape)
    {
      NewIsBuilt(shape);
      root := NewArray(shape);
    }

    /** Replaces the array at `path` by one that continues it. */
    method Update(path: seq<nat>, c: ArrayView)
      requires Valid() && ValidPath(root, path) && Built(c) && Continues(At(root, path), c)
      modifies this
      ensures Valid() && root == Put(old(root), path, c) && Continues(old(root), root)
      ensures ValidPath(root, path) && At(root, path) == c
      ensures path != [] ==> root.length == old(root).length && Contents(root) == Contents(old(root))
    {
      hide Built, Continues, Contents;
      BuiltBelow(root, path);
      PutContinues(root, path, c);
      root := Put(root, path, c);
      BuiltBelow(root, []);
    }

    method AppendInt(path: seq<nat>, x: int) returns (ok: bool)
      requires Valid() && ValidPath(root, path) && -INT64_MAX - 1 <= x <= INT64_MAX
      modifies this
      ensures Valid() && Continues(old(root), root) && ValidPath(root, path)
      ensures ok <==> TakesNumber(At(old(root), path).kind, x)
      ensures if ok then Appends(At(old(root), path), At(root, path), Stored(At(root, path).kind, x))
        else root == old(root)
      ensures path != [] ==> root.length == old(root).length && Contents(root) == Contents(old(root))
    {
      hide Built, Continues, Contents;
      BuiltBelow(root, path);
      var v := At(root, path);
      IntAppends(v, x);
      SameContinues(root);
      var w := AddInt(v, x);
      if w == None { return false; }
      AppendsContinues(v, w.value, Stored(v.kind, x));
      Update(path, w.value);
      ok := true;
    }

    static lemma AppendsContinues(v: ArrayView, w: ArrayView, item: Item)
      requires Appends(v, w, item)
      ensures Built(w) && Continues(v, w)
    {
    }

    method AppendUInt(path: seq<nat>, x: int) returns (ok: bool)
      requires Valid() && ValidPath(root, path) && 0 <= x <= 0xffff_ffff_ffff_ffff
      modifies this
      ensures Valid() && Continues(old(root), root) && ValidPath(root, path)
      ensures ok <==> TakesNumber(At(old(root), path).kind, x)
      ensures if ok then Appends(At(old(root), path), At(root, path), Stored(At(root, path).kind, x))
        else root == old(root)
      ensures path != [] ==> root.length == old(root).length && Contents(root) == Contents(old(root))
    {
      hide Built, Continues, Contents, Appends;
      BuiltBelow(root, path);
      var v := At(root, path);
      UIntAppends(v, x);
      SameContinues(root);
      var w := AddUInt(v, x);
      if w == None { return false; }
      AppendsContinues(v, w.value, Stored(v.kind, x));
      Update(path, w.value);
      ok := true;
    }

    method AppendBytes(path: seq<nat>, bytes: seq<int>) returns (ok: bool)
      requires Valid() && ValidPath(root, path)
      modifies this
      ensures Valid() && Continues(old(root), root) && ValidPath(root, path)
      ensures var v := At(old(root), path);
        ok <==>
          (v.kind.FixedBlobs? && |bytes| == v.kind.blobSize) ||
          (v.kind.Blobs? && (v.kind.large || |v.third.cells| + |bytes| <= INT32_MAX))
      ensures if ok then Appends(At(old(root), path), At(root, path), Blob(bytes)) else root == old(root)
      ensures path != [] ==> root.length == old(root).length && Contents(root) == Contents(old(root))
    {
      hide Built, Continues, Contents, Appends;
      BuiltBelow(root, path);
      var v := At(root, path);
      BytesAppend(v, bytes);
      SameContinues(root);
      var w := AddBytes(v, bytes);
      if w == None { return false; }
      AppendsContinues(v, w.value, Blob(bytes));
      Update(path, w.value);
      ok := true;
    }

    /** Completes a list, fixed-size list or struct element. */
    method FinishElement(path: seq<nat>) returns (ok: bool)
      requires Valid() && ValidPath(root, path)
      modifies this
      ensures Valid() && Continues(old(root), root) && ValidPath(root, path)
      ensures ok <==> AddElement(At(old(root), path)).Some?
      ensures if ok then Appends(At(old(root), path), At(root, path), Pending(At(old(root), path)))
        else root == old(root)
      ensures path != [] ==> root.length == old(root).length && Contents(root) == Contents(old(root))
    {
      hide Built, Continues, Contents, Appends;
      BuiltBelow(root, path);
      var v := At(root, path);
      ElementFinishes(v);
      SameContinues(root);
      var w := AddElement(v);
      if w == None { return false; }
      AppendsContinues(v, w.value, Pending(v));
      Update(path, w.value);
      ok := true;
    }

    /** Appends nulls. */
    method AppendNull(path: seq<nat>, n: nat)
      requires Valid() && ValidPath(root, path) && EmptyFits(At(root, path), n)
      modifies this
      ensures Valid() && Continues(old(root), root) && ValidPath(root, path)
      ensures At(old(root), path).length >= 0 && At(root, path).length >= 0
      ensures Contents(At(root, path)) == Contents(At(old(root), path)) + Repeat(n, None)
      ensures path != [] ==> root.length == old(root).length && Contents(root) == Contents(old(root))
    {
      hide Built, Continues, Contents;
      BuiltBelow(root, path);
      var v := At(root, path);
      EmptyContinues(v, n, false);
      EmptyAppends(v, n, false);
      NullsAdded(v, n);
      Update(path, AddEmpty(v, n, false));
    }

    /** Appends empty elements. They read as empty where no child is ahead of its parent; a struct or
        fixed-size list takes over what children that are ahead hold. */
    method AppendEmpty(path: seq<nat>, n: nat)
      requires Valid() && ValidPath(root, path) && EmptyFits(At(root, path), n)
      modifies this
      ensures Valid() && Continues(old(root), root) && ValidPath(root, path)
      ensures At(old(root), path).length >= 0 && At(root, path).length >= 0
      ensures At(root, path).length == At(old(root), path).length + n
      ensures Contents(At(root, path)) == Contents(At(old(root), path)) + Emptied(At(old(root), path), n, true)
      ensures Aligned(At(old(root), path)) ==>
        Contents(At(root, path)) == Contents(At(old(root), path)) + Repeat(n, Some(EmptyItem(At(old(root), path))))
      ensures path != [] ==> root.length == old(root).length && Contents(root) == Contents(old(root))
    {
      hide Built, Continues, Contents;
      BuiltBelow(root, path);
      var v := At(root, path);
      EmptyContinues(v, n, true);
      EmptyAppends(v, n, true);
      if Aligned(v) { AlignedAdded(v, n); }
      Update(path, AddEmpty(v, n, true));
    }

    /** Validates what has been built, at any point of any run of the operations above. */
    method FinishBuilding(level: Level) returns (ok: bool)
      requires Valid() && Fits(root)
      ensures ok && Safe(root) && root.nullCount == NoneCount(Contents(root))
    {
      hide Built, Fits, Safe, Contents;
      BuiltIsAccepted(root);
      BuiltIsMinimal(root);
      BuiltIsDefault(root);
      NullCount(root);
      var r := Validate(root, level);
      ok := r.Some?;
    }
  }
}
