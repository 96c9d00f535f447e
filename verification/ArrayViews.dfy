/** Arrow array views and their three levels of validation. Buffers hold typed cells and know their
    size in bytes, or -1 while it is unknown. A cell of a validity bitmap or of a bool array is a bit. */
module ArrayViews {
  import opened Wrappers
  import opened Bits

  const INT64_MAX: int := 0x7fff_ffff_ffff_ffff
  const UNKNOWN: int := -1

  datatype Kind =
    | Ints(width: nat, signed: bool)
    | Bools
    | Blobs(large: bool)
    | FixedBlobs(blobSize: nat)
    | Lists(large: bool)
    | Structs
    | FixedLists(listSize: nat)
    | RunEnds

  /** The memory behind a buffer pointer, and the size the view has for it. */
  datatype Buffer<T> = Buffer(present: bool, size: int, cells: seq<T>)

  /** `first` is the validity bitmap, `second` holds values or offsets, `third` the bytes of blobs. */
  datatype ArrayView = ArrayView(
    kind: Kind, length: int, offset: int, nullCount: int,
    first: Buffer<bool>, second: Buffer<int>, third: Buffer<int>, children: seq<ArrayView>)

  function OffsetWidth(large: bool): nat
  {
    if large then 8 else 4
  }

  /** What lies outside the memory modelled reads as 0. */
  function Cell(b: Buffer<int>, i: int): int
  {
    if 0 <= i < |b.cells| then b.cells[i] else 0
  }

  /** The part of an array from element `from` on, as a slice has it. */
  function Sliced(v: ArrayView, from: int, n: int): ArrayView
  {
    v.(offset := v.offset + from, length := n)
  }

  function End(v: ArrayView): int
  {
    v.offset + v.length
  }

  // --------------------------------------------------------------------------- height

  function Height(v: ArrayView): nat
    decreases v
  {
    1 + HeightOf(v.children)
  }

  function HeightOf(vs: seq<ArrayView>): nat
    decreases vs
  {
    if vs == [] then 0 else var h, t := Height(vs[0]), HeightOf(vs[1..]); if h > t then h else t
  }

  lemma {:induction false} ChildHeight(vs: seq<ArrayView>, i: nat)
    requires i < |vs|
    ensures Height(vs[i]) <= HeightOf(vs)
  {
    if i > 0 { ChildHeight(vs[1..], i - 1); }
  }

  // ---------------------------------------------------------------- minimal validation

  /** The size of `b` if it was unknown, or a check that it is large enough. */
  function Sized<T>(b: Buffer<T>, least: int): Option<Buffer<T>>
  {
    if b.size == UNKNOWN then Some(b.(size := least)) else if b.size < least then None else Some(b)
  }

  /** The bytes the second buffer needs for `n` elements; nothing when the layout has none. */
  function SecondSize(kind: Kind, n: nat): Option<int>
  {
    match kind
    case Ints(width, _) => Some(width * n)
    case Bools => Some(BytesForBits(n))
    case FixedBlobs(blobSize) => Some(blobSize * n)
    case Blobs(large) => Some(if n == 0 then 0 else OffsetWidth(large) * (n + 1))
    case Lists(large) => Some(if n == 0 then 0 else OffsetWidth(large) * (n + 1))
    case _ => None
  }

  function MinimalBuffers(v: ArrayView): Option<ArrayView>
    requires v.offset >= 0 && v.length >= 0
  {
    var first := if v.kind.RunEnds? || (v.nullCount == 0 && v.first.size == 0) then Some(v.first)
      else Sized(v.first, BytesForBits(End(v)));
    var need := SecondSize(v.kind, End(v));
    var second := if need == None then Some(v.second) else Sized(v.second, need.value);
    if first == None || second == None then None else Some(v.(first := first.value, second := second.value))
  }

  function MaxRunEnd(kind: Kind): Option<int>
  {
    if kind == Ints(2, true) then Some(0x7fff)
    else if kind == Ints(4, true) then Some(0x7fff_ffff)
    else if kind == Ints(8, true) then Some(INT64_MAX)
    else None
  }

  /** The checks of the number of children and of their lengths. */
  predicate MinimalChildren(v: ArrayView)
    requires v.offset >= 0 && v.length >= 0
  {
    match v.kind
    case Lists(_) => |v.children| == 1
    case Structs => forall i | 0 <= i < |v.children| :: v.children[i].length >= End(v)
    case FixedLists(size) => |v.children| == 1 && v.children[0].length >= End(v) * size
    case RunEnds =>
      && |v.children| == 2
      && var ends, values := v.children[0], v.children[1];
      && MaxRunEnd(ends.kind).Some? && End(v) <= MaxRunEnd(ends.kind).value
      && ends.length <= values.length && (ends.length == 0 ==> values.length == 0) && ends.nullCount == 0
    case _ => true
  }

  /** The view with the sizes that need no buffer access, or nothing when it is refused. */
  function Minimal(v: ArrayView): (r: Option<ArrayView>)
    ensures r.Some? ==> Height(r.value) == Height(v)
    decreases v
  {
    if v.length < 0 || v.offset < 0 || End(v) > INT64_MAX then None else
    var own := MinimalBuffers(v);
    if own == None || !MinimalChildren(v) then None else
    var children := MinimalAll(v.children);
    if children == None then None else Some(own.value.(children := children.value))
  }

  function MinimalAll(vs: seq<ArrayView>): (r: Option<seq<ArrayView>>)
    ensures r.Some? ==> |r.value| == |vs| && HeightOf(r.value) == HeightOf(vs)
    ensures r.Some? ==> forall i | 0 <= i < |vs| :: Minimal(vs[i]) == Some(r.value[i])
    decreases vs
  {
    if vs == [] then Some([]) else
    var head, rest := Minimal(vs[0]), MinimalAll(vs[1..]);
    if head == None || rest == None then None else
    assert ([head.value] + rest.value)[1..] == rest.value;
    Some([head.value] + rest.value)
  }

  // ------------------------------------------- validation that reads the offset buffers

  function GetInt(v: ArrayView, i: int): int
  {
    Cell(v.second, v.offset + i)
  }

  function DefaultOwn(v: ArrayView): Option<ArrayView>
    requires v.offset >= 0 && v.length >= 0 && MinimalChildren(v)
  {
    match v.kind
    case Blobs(_) =>
      if v.second.size == 0 then Some(if v.third.size == UNKNOWN then v.(third := v.third.(size := 0)) else v)
      else if Cell(v.second, v.offset) < 0 || Cell(v.second, End(v)) < 0 then None
      else
        var third := Sized(v.third, Cell(v.second, End(v)));
        if third == None then None else Some(v.(third := third.value))
    case Lists(_) =>
      if v.second.size == 0 then Some(v)
      else if Cell(v.second, v.offset) < 0 || Cell(v.second, End(v)) < 0 then None
      else if v.children[0].length < Cell(v.second, End(v)) then None
      else Some(v)
    case RunEnds =>
      var ends := v.children[0];
      if ends.length == 0 then Some(v)
      else if GetInt(ends, 0) < 1 || GetInt(ends, ends.length - 1) < End(v) then None
      else Some(v)
    case _ => Some(v)
  }

  /** Validation assigns sizes and changes nothing else. */
  ghost predicate SameShape(v: ArrayView, w: ArrayView)
  {
    v.kind == w.kind && v.length == w.length && v.offset == w.offset && v.nullCount == w.nullCount &&
      |v.children| == |w.children|
  }

  lemma MinimalParts(v: ArrayView)
    requires Minimal(v).Some?
    ensures v.length >= 0 && v.offset >= 0 && MinimalBuffers(v).Some? && MinimalChildren(v)
    ensures MinimalAll(v.children).Some? && Minimal(v).value
      == MinimalBuffers(v).value.(children := MinimalAll(v.children).value)
    ensures SameShape(v, Minimal(v).value)
  {
  }

  lemma SameChildChecks(v: ArrayView, w: ArrayView)
    requires SameShape(v, w) && v.offset >= 0 && v.length >= 0 && MinimalChildren(v)
    requires forall i | 0 <= i < |v.children| :: SameShape(v.children[i], w.children[i])
    ensures MinimalChildren(w)
  {
  }

  lemma MinimalFacts(v: ArrayView)
    requires Minimal(v).Some?
    ensures v.length >= 0 && v.offset >= 0 && MinimalBuffers(v).Some? && MinimalChildren(v)
    ensures MinimalAll(v.children).Some? && Minimal(v).value
      == MinimalBuffers(v).value.(children := MinimalAll(v.children).value)
    ensures SameShape(v, Minimal(v).value) && MinimalChildren(Minimal(v).value)
  {
    hide Minimal, MinimalBuffers, MinimalChildren;
    MinimalParts(v);
    var m := Minimal(v).value;
    forall i | 0 <= i < |v.children| ensures SameShape(v.children[i], m.children[i]) {
      MinimalParts(v.children[i]);
    }
    SameChildChecks(v, m);
  }

  function Default(v: ArrayView): Option<ArrayView>
    decreases Height(v), 1, 0
  {
    var m := Minimal(v);
    if m == None then None else
    MinimalFacts(v);
    var own := DefaultOwn(m.value);
    if own == None then None else
    assert own.value.children == m.value.children;
    var children := DefaultAll(own.value.children);
    if children == None then None else Some(own.value.(children := children.value))
  }

  function DefaultAll(vs: seq<ArrayView>): (r: Option<seq<ArrayView>>)
    ensures r.Some? ==> |r.value| == |vs|
    decreases HeightOf(vs), 2, |vs|
  {
    if vs == [] then Some([]) else
    var head, rest := Default(vs[0]), DefaultAll(vs[1..]);
    if head == None || rest == None then None else Some([head.value] + rest.value)
  }

  lemma {:induction false} DefaultEach(vs: seq<ArrayView>, i: nat)
    requires DefaultAll(vs).Some? && i < |vs|
    ensures Default(vs[i]) == Some(DefaultAll(vs).value[i])
  {
    if i > 0 { DefaultEach(vs[1..], i - 1); }
  }

  // -------------------------------------------------------------------- full validation

  predicate Increasing(b: Buffer<int>, from: int, n: int)
  {
    forall i | from < i <= from + n :: Cell(b, i) >= Cell(b, i - 1)
  }

  predicate FullOwn(v: ArrayView)
  {
    match v.kind
    case Blobs(_) => Increasing(v.second, v.offset, v.length)
    case Lists(_) => Increasing(v.second, v.offset, v.length)
    case RunEnds =>
      |v.children| == 2 && var ends := v.children[0];
      forall i | 0 < i < ends.length :: GetInt(ends, i) > GetInt(ends, i - 1)
    case _ => true
  }

  predicate Full(v: ArrayView)
    decreases v
  {
    FullOwn(v) && forall i | 0 <= i < |v.children| :: Full(v.children[i])
  }

  /** Validation at the full level, with the sizes it assigns. */
  function Accepted(v: ArrayView): Option<ArrayView>
  {
    var d := Default(v);
    if d == None || !Full(d.value) then None else d
  }

  // ---------------------------------------------------------------- what is safe to read

  /** Logical position `p` lies in run `k`. */
  predicate InRun(ends: ArrayView, k: int, p: int)
  {
    0 <= k < ends.length && (k == 0 || GetInt(ends, k - 1) <= p) && p < GetInt(ends, k)
  }

  ghost predicate OneRun(ends: ArrayView, values: ArrayView, p: int)
  {
    exists k :: InRun(ends, k, p) && k < values.length && forall j :: InRun(ends, j, p) ==> j == k
  }

  /** The cells of the second buffer up to `n` lie in its size. */
  predicate CellsInside(v: ArrayView, width: int, n: int)
  {
    width * n <= v.second.size
  }

  /** Element `i` of an offset buffer and the next one delimit a part of `limit`. */
  predicate Range(v: ArrayView, i: int, limit: int)
  {
    0 <= Cell(v.second, i) <= Cell(v.second, i + 1) <= limit
  }

  /** What a reader of any element of this array alone touches lies inside its buffers and children. */
  ghost predicate SafeOwn(v: ArrayView)
  {
    && v.offset >= 0 && v.length >= 0
    && (v.first.present && !v.kind.RunEnds? && v.length > 0 ==> BytesForBits(End(v)) <= v.first.size)
    && match v.kind
       case Ints(width, _) => CellsInside(v, width, End(v))
       case Bools => BytesForBits(End(v)) <= v.second.size
       case FixedBlobs(blobSize) => CellsInside(v, blobSize, End(v))
       case Blobs(large) =>
         v.length > 0 ==> CellsInside(v, OffsetWidth(large), End(v) + 1) && forall i | v.offset <= i < End(v) ::
           Range(v, i, v.third.size)
       case Lists(large) =>
         |v.children| == 1 && (v.length > 0 ==>
           CellsInside(v, OffsetWidth(large), End(v) + 1) &&
           forall i | v.offset <= i < End(v) :: Range(v, i, v.children[0].length))
       case Structs => forall i | 0 <= i < |v.children| :: v.children[i].length >= End(v)
       case FixedLists(size) => |v.children| == 1 && v.children[0].length >= End(v) * size
       case RunEnds => |v.children| == 2 && forall p | v.offset <= p < End(v) :: OneRun(v.children[0], v.children[1], p)
  }

  /** Every element of the array, and of every array below it, can be read. */
  ghost predicate Safe(v: ArrayView)
    decreases v
  {
    SafeOwn(v) && forall i | 0 <= i < |v.children| :: Safe(v.children[i])
  }

  /** What a caller has to rule out before: a bitmap of known size 0 beside a null count of 0, and run
      ends that are missing altogether. */
  predicate ReadableOwn(v: ArrayView)
  {
    && (v.first.present && v.first.size == 0 && v.nullCount == 0 && !v.kind.RunEnds? ==> v.length == 0)
    && (v.kind.RunEnds? && |v.children| == 2 ==> v.children[0].length > 0 || v.length == 0)
  }

  predicate Readable(v: ArrayView)
    decreases v
  {
    ReadableOwn(v) && forall i | 0 <= i < |v.children| :: Readable(v.children[i])
  }

  // -------------------------------------------------------------- acceptance and safety

  /** What default validation leaves of a view, in steps. */
  lemma DefaultFacts(v: ArrayView, d: ArrayView)
    requires Default(v) == Some(d)
    ensures Minimal(v).Some? && MinimalChildren(Minimal(v).value)
    ensures Minimal(v).value.offset >= 0 && Minimal(v).value.length >= 0
    ensures DefaultOwn(Minimal(v).value).Some? && DefaultAll(Minimal(v).value.children).Some?
    ensures d == DefaultOwn(Minimal(v).value).value.(children := DefaultAll(Minimal(v).value.children).value)
    ensures SameShape(v, d)
  {
    hide Minimal, MinimalChildren;
    MinimalFacts(v);
  }

  lemma SizedFacts<T>(b: Buffer<T>, least: int)
    requires Sized(b, least).Some?
    ensures Sized(b, least).value.cells == b.cells && Sized(b, least).value.present == b.present
    ensures Sized(b, least).value.size >= least
    ensures b.size != UNKNOWN ==> Sized(b, least).value.size == b.size
  {
  }

  /** The second buffer has the size it needs. */
  lemma SecondFits(v: ArrayView)
    requires Minimal(v).Some?
    ensures var m := Minimal(v).value;
      SecondSize(m.kind, End(m)).Some? ==> SecondSize(m.kind, End(m)).value <= m.second.size
  {
  }

  /** So has the bitmap, unless it has none of its bytes and counts no null. */
  lemma FirstFits(v: ArrayView)
    requires Minimal(v).Some? && !v.kind.RunEnds?
    ensures var m := Minimal(v).value;
      if v.nullCount == 0 && v.first.size == 0 then m.first == v.first
        else m.first.present == v.first.present && m.first.size >= BytesForBits(End(m))
  {
    hide Minimal, MinimalChildren, SecondSize;
    MinimalFacts(v);
    if !(v.nullCount == 0 && v.first.size == 0) { SizedFacts(v.first, BytesForBits(End(v))); }
  }

  /** Increasing offsets between checked ends delimit parts of the checked limit. */
  lemma {:induction false} OffsetsBetween(b: Buffer<int>, from: int, n: nat, i: nat, j: nat)
    requires Increasing(b, from, n) && i <= j <= n
    ensures Cell(b, from + i) <= Cell(b, from + j)
    decreases j
  {
    if i < j {
      OffsetsBetween(b, from, n, i, j - 1);
      assert Cell(b, from + j) >= Cell(b, from + j - 1);
    }
  }

  lemma RangesInside(v: ArrayView, limit: int)
    requires v.length > 0 && Increasing(v.second, v.offset, v.length)
    requires 0 <= Cell(v.second, v.offset) && Cell(v.second, End(v)) <= limit
    ensures forall i | v.offset <= i < End(v) :: Range(v, i, limit)
  {
    hide Cell, Increasing;
    forall i | v.offset <= i < End(v) ensures Range(v, i, limit) {
      var k := i - v.offset;
      OffsetsBetween(v.second, v.offset, v.length, 0, k);
      OffsetsBetween(v.second, v.offset, v.length, k, k + 1);
      OffsetsBetween(v.second, v.offset, v.length, k + 1, v.length);
    }
  }

  /** Strictly increasing run ends up to the last one: each position before it is in exactly one run. */
  lemma {:induction false} RunFound(ends: ArrayView, n: nat, p: int) returns (k: int)
    requires 0 < n <= ends.length && 0 <= p < GetInt(ends, n - 1)
    ensures InRun(ends, k, p) && k < n
  {
    if n == 1 || GetInt(ends, n - 2) <= p { k := n - 1; } else { k := RunFound(ends, n - 1, p); }
  }

  lemma {:induction false} RunEndsGrow(ends: ArrayView, i: int, j: int)
    requires forall x | 0 < x < ends.length :: GetInt(ends, x) > GetInt(ends, x - 1)
    requires 0 <= i <= j < ends.length
    ensures GetInt(ends, i) <= GetInt(ends, j)
    decreases j - i
  {
    hide GetInt;
    if i < j { RunEndsGrow(ends, i, j - 1); }
  }

  lemma RunUnique(ends: ArrayView, p: int, i: int, j: int)
    requires forall x | 0 < x < ends.length :: GetInt(ends, x) > GetInt(ends, x - 1)
    requires InRun(ends, i, p) && InRun(ends, j, p)
    ensures i == j
  {
    hide GetInt;
    if i < j { RunEndsGrow(ends, i, j - 1); }
    if j < i { RunEndsGrow(ends, j, i - 1); }
  }

  lemma RunsCover(v: ArrayView)
    requires v.kind.RunEnds? && |v.children| == 2 && v.offset >= 0 && FullOwn(v)
    requires var ends := v.children[0];
      0 < ends.length <= v.children[1].length &&
      GetInt(ends, ends.length - 1) >= End(v)
    ensures forall p | v.offset <= p < End(v) :: OneRun(v.children[0], v.children[1], p)
  {
    hide GetInt, InRun;
    var ends, values := v.children[0], v.children[1];
    forall p | v.offset <= p < End(v) ensures OneRun(ends, values, p) {
      var k := RunFound(ends, ends.length, p);
      forall j | InRun(ends, j, p) ensures j == k { RunUnique(ends, p, j, k); }
    }
  }

  /** Validation leaves the cells as they are. */
  ghost predicate SameCells(v: ArrayView, w: ArrayView)
  {
    SameShape(v, w) && v.second.cells == w.second.cells && v.first.present == w.first.present
  }

  lemma MinimalKeepsCells(v: ArrayView)
    requires Minimal(v).Some?
    ensures SameCells(v, Minimal(v).value)
  {
    hide Minimal, MinimalChildren, SecondSize;
    MinimalFacts(v);
    var need := SecondSize(v.kind, End(v));
    if need.Some? && Sized(v.second, need.value).Some? { SizedFacts(v.second, need.value); }
    if Sized(v.first, BytesForBits(End(v))).Some? { SizedFacts(v.first, BytesForBits(End(v))); }
  }

  lemma DefaultKeepsCells(v: ArrayView, d: ArrayView)
    requires Default(v) == Some(d)
    ensures SameCells(v, d)
  {
    hide Minimal, MinimalChildren, Default;
    DefaultFacts(v, d);
    MinimalKeepsCells(v);
  }

  /** The children after validation, against those before. */
  lemma ChildrenKept(v: ArrayView, d: ArrayView, i: nat)
    requires Default(v) == Some(d) && i < |v.children|
    ensures |d.children| == |v.children| == |Minimal(v).value.children|
    ensures SameCells(v.children[i], d.children[i]) && SameCells(Minimal(v).value.children[i], d.children[i])
    ensures Default(Minimal(v).value.children[i]) == Some(d.children[i])
  {
    hide Minimal, MinimalChildren, Default, DefaultOwn;
    DefaultFacts(v, d);
    MinimalFacts(v);
    var m := Minimal(v).value;
    MinimalKeepsCells(v.children[i]);
    DefaultEach(m.children, i);
    DefaultKeepsCells(m.children[i], d.children[i]);
  }

  lemma ChildrenSameShape(v: ArrayView, d: ArrayView)
    requires Default(v) == Some(d) && Minimal(v).Some?
    ensures |d.children| == |Minimal(v).value.children|
    ensures forall i | 0 <= i < |d.children| :: SameCells(Minimal(v).value.children[i], d.children[i])
  {
    hide Minimal, MinimalChildren, Default, SameCells;
    DefaultFacts(v, d);
    MinimalFacts(v);
    forall i | 0 <= i < |d.children| ensures SameCells(Minimal(v).value.children[i], d.children[i]) {
      ChildrenKept(v, d, i);
    }
  }

  lemma BitmapSafe(v: ArrayView, d: ArrayView)
    requires Default(v) == Some(d) && !v.kind.RunEnds?
    ensures (d.first.present && d.length > 0 ==> BytesForBits(End(d)) <= d.first.size)
       <==> (v.first.present && v.first.size == 0 && v.nullCount == 0 ==> v.length == 0)
    ensures SameShape(v, d)
  {
    hide Minimal, MinimalChildren, Default;
    DefaultFacts(v, d);
    MinimalFacts(v);
    FirstFits(v);
  }

  /** What the second buffer is known to hold. */
  lemma SecondSafe(v: ArrayView, d: ArrayView)
    requires Default(v) == Some(d)
    ensures d.offset >= 0 && d.length >= 0 && MinimalChildren(d)
    ensures SecondSize(d.kind, End(d)).Some? ==> SecondSize(d.kind, End(d)).value <= d.second.size
    ensures d.kind.Blobs? && d.second.size != 0 ==>
      0 <= Cell(d.second, d.offset) && Cell(d.second, End(d)) <= d.third.size
    ensures d.kind.Lists? && d.second.size != 0 ==>
      0 <= Cell(d.second, d.offset) && Cell(d.second, End(d)) <= d.children[0].length
    ensures d.kind.RunEnds? && d.children[0].length > 0 ==> GetInt(d.children[0], d.children[0].length - 1) >= End(d)
  {
    hide Minimal, MinimalChildren, Default, SecondSize;
    DefaultFacts(v, d);
    var m := Minimal(v).value;
    SecondFits(v);
    ChildrenSameShape(v, d);
    SameChildChecks(m, d);
    assert d.kind.RunEnds? || d.kind.Lists? ==> |m.children| > 0 by { ChildCount(m); }
    if m.kind.Blobs? && m.second.size != 0 { SizedFacts(m.third, Cell(m.second, End(m))); }
  }

  lemma ChildCount(m: ArrayView)
    requires m.offset >= 0 && m.length >= 0 && MinimalChildren(m)
    ensures m.kind.Lists? || m.kind.FixedLists? ==> |m.children| == 1
    ensures m.kind.RunEnds? ==> |m.children| == 2 && m.children[0].length <= m.children[1].length
    ensures m.kind.Structs? ==> forall i | 0 <= i < |m.children| :: m.children[i].length >= End(m)
    ensures m.kind.FixedLists? ==> m.children[0].length >= End(m) * m.kind.listSize
  {
  }

  lemma OffsetSizeUsed(large: bool, n: nat)
    ensures n > 0 ==>
      SecondSize(Blobs(large), n) == Some(OffsetWidth(large) * (n + 1)) &&
      OffsetWidth(large) * (n + 1) > 0
    ensures SecondSize(Lists(large), n) == SecondSize(Blobs(large), n)
  {
  }

  lemma OwnSafe(v: ArrayView, d: ArrayView)
    requires Default(v) == Some(d) && FullOwn(d)
    ensures SafeOwn(d) <==> ReadableOwn(v)
  {
    hide Minimal, MinimalChildren, Default, Cell, GetInt, Increasing, Range, OneRun, BytesForBits;
    SecondSafe(v, d);
    ChildCount(d);
    DefaultKeepsCells(v, d);
    if d.kind.RunEnds? {
      RunsSafe(v, d);
    } else {
      BitmapSafe(v, d);
      if d.kind.Blobs? && d.length > 0 {
        OffsetSizeUsed(d.kind.large, End(d));
        RangesInside(d, d.third.size);
      } else if d.kind.Lists? && d.length > 0 {
        OffsetSizeUsed(d.kind.large, End(d));
        RangesInside(d, d.children[0].length);
      }
    }
  }

  lemma RunsSafe(v: ArrayView, d: ArrayView)
    requires Default(v) == Some(d) && FullOwn(d) && d.kind.RunEnds?
    ensures SafeOwn(d) <==> ReadableOwn(v)
  {
    hide Minimal, MinimalChildren, Default, Cell, GetInt, OneRun, BytesForBits;
    SecondSafe(v, d);
    ChildCount(d);
    DefaultKeepsCells(v, d);
    ChildrenKept(v, d, 0);
    if d.children[0].length > 0 {
      RunsCover(d);
    } else if d.length > 0 {
      NoRun(d.children[0], d.children[1], d.offset);
    }
  }

  lemma NoRun(ends: ArrayView, values: ArrayView, p: int)
    requires ends.length <= 0
    ensures !OneRun(ends, values, p)
  {
  }

  lemma MinimalKeepsHeight(v: ArrayView)
    requires Minimal(v).Some?
    ensures Height(Minimal(v).value) == Height(v) == 1 + HeightOf(Minimal(v).value.children)
  {
  }

  lemma ReadableOwnKept(v: ArrayView)
    requires Minimal(v).Some?
    ensures ReadableOwn(Minimal(v).value) <==> ReadableOwn(v)
  {
  }

  lemma {:induction false} ReadableKept(v: ArrayView)
    requires Minimal(v).Some?
    ensures Readable(Minimal(v).value) <==> Readable(v)
    decreases v
  {
    hide Minimal, MinimalChildren, ReadableOwn, MinimalBuffers;
    ReadableOwnKept(v);
    MinimalFacts(v);
    forall i | 0 <= i < |v.children| ensures Readable(Minimal(v).value.children[i]) <==> Readable(v.children[i]) {
      ReadableKept(v.children[i]);
    }
  }

  /** What full validation adds to the sizes assigned before. */
  lemma {:induction false} FullIsSafe(v: ArrayView, d: ArrayView)
    requires Default(v) == Some(d) && Full(d)
    ensures Safe(d) <==> Readable(v)
    decreases Height(v)
  {
    hide Minimal, Default, DefaultOwn, FullOwn, SafeOwn, ReadableOwn;
    OwnSafe(v, d);
    DefaultFacts(v, d);
    MinimalFacts(v);
    MinimalKeepsHeight(v);
    var m := Minimal(v).value;
    forall i | 0 <= i < |v.children| ensures Safe(d.children[i]) <==> Readable(v.children[i]) {
      ChildrenKept(v, d, i);
      ChildHeight(m.children, i);
      FullIsSafe(m.children[i], d.children[i]);
      ReadableKept(v.children[i]);
    }
  }

  /** A view accepted at the full level is safe to read, at every level of nesting, exactly when the
      caller's side of the bargain holds. */
  lemma AcceptedIsSafe(v: ArrayView)
    ensures Accepted(v).Some? ==> (Safe(Accepted(v).value) <==> Readable(v))
  {
    hide Default, Full, Safe, Readable;
    if Accepted(v).Some? { FullIsSafe(v, Accepted(v).value); }
  }

  /** One element with a validity bitmap of known size 0, which no null count asks for: accepted at the
      full level, but its bit is read. */
  const NO_BITMAP: ArrayView :=
    ArrayView(Ints(4, true), 1, 0, 0, Buffer(true, 0, []), Buffer(true, 4, [7]), Buffer(false, 0, []), [])

  lemma EmptyBitmapIsUnsafe()
    ensures Accepted(NO_BITMAP).Some? && !Safe(Accepted(NO_BITMAP).value) && !Readable(NO_BITMAP)
  {
    var v := NO_BITMAP;
    assert MinimalAll([]) == Some([]) && DefaultAll([]) == Some([]);
    assert MinimalBuffers(v) == Some(v);
    assert Minimal(v) == Some(v);
    assert Default(v) == Some(v);
    assert Full(v);
    assert !SafeOwn(v);
  }

  /** A run-end encoded array with one element and no run. */
  const NO_RUN: ArrayView :=
    ArrayView(RunEnds, 1, 0, 0, Buffer(false, 0, []), Buffer(false, 0, []), Buffer(false, 0, []), [NO_INTS, NO_INTS])

  const NO_INTS: ArrayView :=
    ArrayView(Ints(4, true), 0, 0, 0, Buffer(false, 0, []), Buffer(false, 0, []), Buffer(false, 0, []), [])

  lemma NoRunIsUnsafe()
    ensures Accepted(NO_RUN).Some? && !Safe(Accepted(NO_RUN).value) && !Readable(NO_RUN)
  {
    hide Minimal, MinimalAll, Default, DefaultAll, Full, Safe, Readable, Height, HeightOf;
    NoIntsAccepted();
    NoRunAccepted(NO_RUN, NO_INTS);
    NoRunNotSafe(NO_RUN);
  }

  lemma NoIntsAccepted()
    ensures Minimal(NO_INTS) == Some(NO_INTS) && Default(NO_INTS) == Some(NO_INTS) && Full(NO_INTS)
  {
    var c := NO_INTS;
    assert MinimalAll([]) == Some([]) && DefaultAll([]) == Some([]);
    assert MinimalBuffers(c) == Some(c);
    assert Minimal(c) == Some(c);
  }

  lemma NoRunAccepted(v: ArrayView, c: ArrayView)
    requires Minimal(c) == Some(c) && Default(c) == Some(c) && Full(c)
    requires c.kind == Ints(4, true) && c.length == 0 && c.nullCount == 0
    requires v.kind.RunEnds? && v.offset == 0 && v.length == 1 && v.children == [c, c]
    ensures Default(v) == Some(v) && Full(v)
  {
    hide Height, HeightOf;
    TwoChildren(c);
    hide MinimalAll, DefaultAll;
    assert MinimalBuffers(v) == Some(v) && MinimalChildren(v);
    assert Minimal(v) == Some(v);
    assert DefaultOwn(v) == Some(v);
  }

  lemma NoRunNotSafe(v: ArrayView)
    requires v.kind.RunEnds? && v.offset == 0 && v.length == 1 && |v.children| == 2 && v.children[0].length == 0
    ensures !Safe(v) && !Readable(v)
  {
    NoRun(v.children[0], v.children[1], 0);
    assert !SafeOwn(v) && !ReadableOwn(v);
  }

  lemma TwoChildren(c: ArrayView)
    requires Minimal(c) == Some(c) && Default(c) == Some(c)
    ensures MinimalAll([c, c]) == Some([c, c]) && DefaultAll([c, c]) == Some([c, c])
  {
    hide Minimal, Default;
    assert [c, c][1..] == [c] && [c][1..] == [] && [c] + [] == [c] && [c] + [c] == [c, c];
    assert MinimalAll([]) == Some([]) && DefaultAll([]) == Some([]);
    assert MinimalAll([c]) == Some([c]) && DefaultAll([c]) == Some([c]);
  }

  // --------------------------------------------------------------- the walks themselves

  datatype Level = NoValidation | MinimalLevel | DefaultLevel | FullLevel

  method AssertIncreasing(b: Buffer<int>, from: int, n: nat) returns (ok: bool)
    ensures ok <==> Increasing(b, from, n)
  {
    var i := 1;
    while i < n + 1
      invariant 1 <= i <= n + 1 && forall j | from < j < from + i :: Cell(b, j) >= Cell(b, j - 1)
    {
      if Cell(b, from + i) < Cell(b, from + i - 1) { return false; }
      i := i + 1;
    }
    return true;
  }

  method AssertRunsIncrease(ends: ArrayView) returns (ok: bool)
    ensures ok <==> forall i | 0 < i < ends.length :: GetInt(ends, i) > GetInt(ends, i - 1)
  {
    if ends.length <= 0 { return true; }
    var lastRunEnd := GetInt(ends, 0);
    var i := 1;
    while i < ends.length
      invariant 1 <= i <= ends.length && lastRunEnd == GetInt(ends, i - 1)
      invariant forall j | 0 < j < i :: GetInt(ends, j) > GetInt(ends, j - 1)
    {
      var runEnd := GetInt(ends, i);
      if runEnd <= lastRunEnd { return false; }
      lastRunEnd := runEnd;
      i := i + 1;
    }
    return true;
  }

  /** What the earlier levels have established about every array of the tree. */
  predicate WellShaped(v: ArrayView)
    decreases v
  {
    v.length >= 0 && (v.kind.RunEnds? ==> |v.children| == 2) && forall i | 0 <= i < |v.children| ::
      WellShaped(v.children[i])
  }

  lemma {:induction false} DefaultWellShaped(v: ArrayView, d: ArrayView)
    requires Default(v) == Some(d)
    ensures WellShaped(d)
    decreases Height(v)
  {
    hide Minimal, Default, DefaultOwn;
    SecondSafe(v, d);
    ChildCount(d);
    DefaultFacts(v, d);
    MinimalKeepsHeight(v);
    var m := Minimal(v).value;
    forall i | 0 <= i < |d.children| ensures WellShaped(d.children[i]) {
      ChildrenKept(v, d, i);
      ChildHeight(m.children, i);
      DefaultWellShaped(m.children[i], d.children[i]);
    }
  }

  lemma Rejoined<T>(h: T, t: seq<T>, x: T)
    ensures [h] + (t + [x]) == ([h] + t) + [x]
  {
  }

  lemma {:induction false} MinimalPrefix(vs: seq<ArrayView>, n: nat)
    requires n <= |vs|
    ensures MinimalAll(vs[..n]) == None ==> MinimalAll(vs) == None
    ensures n < |vs| && Minimal(vs[n]) == None ==> MinimalAll(vs) == None
    ensures n < |vs| && MinimalAll(vs[..n]).Some? && Minimal(vs[n]).Some? ==>
      MinimalAll(vs[..n + 1]) == Some(MinimalAll(vs[..n]).value + [Minimal(vs[n]).value])
    decreases n
  {
    hide Minimal;
    if n > 0 {
      assert vs[..n][0] == vs[0] && vs[..n][1..] == vs[1..][..n - 1];
      if n < |vs| { assert vs[..n + 1][0] == vs[0] && vs[..n + 1][1..] == vs[1..][..n]; }
      MinimalPrefix(vs[1..], n - 1);
      var h, t := Minimal(vs[0]), MinimalAll(vs[1..][..n - 1]);
      if n < |vs| && h.Some? && t.Some? && Minimal(vs[n]).Some? {
        Rejoined(h.value, t.value, Minimal(vs[n]).value);
      }
    } else if n < |vs| {
      assert vs[..1][1..] == [] && vs[..1][0] == vs[0] && vs[..0] == [];
      assert MinimalAll(vs[..1][1..]) == Some([]);
      if Minimal(vs[0]).Some? { assert [Minimal(vs[0]).value] + [] == [] + [Minimal(vs[0]).value]; }
    }
  }

  /** Minimal validation of one array after the other, from the root down. */
  method ValidateMinimal(v: ArrayView) returns (r: Option<ArrayView>)
    ensures r == Minimal(v)
    decreases v
  {
    hide MinimalBuffers, MinimalChildren, MinimalAll;
    if v.length < 0 || v.offset < 0 || End(v) > INT64_MAX { return None; }
    var own := MinimalBuffers(v);
    if own == None || !MinimalChildren(v) { return None; }
    var children: seq<ArrayView> := [];
    var i := 0;
    NoneMinimal(v.children);
    while i < |v.children|
      invariant 0 <= i <= |v.children| && MinimalAll(v.children[..i]) == Some(children)
    {
      var child := ValidateMinimal(v.children[i]);
      MinimalPrefix(v.children, i);
      if child == None { return None; }
      children := children + [child.value];
      i := i + 1;
    }
    assert v.children[..i] == v.children;
    return Some(own.value.(children := children));
  }

  lemma NoneMinimal(vs: seq<ArrayView>)
    ensures MinimalAll(vs[..0]) == Some([])
  {
  }

  lemma {:induction false} DefaultPrefix(vs: seq<ArrayView>, n: nat)
    requires n <= |vs|
    ensures DefaultAll(vs[..n]) == None ==> DefaultAll(vs) == None
    ensures n < |vs| && Default(vs[n]) == None ==> DefaultAll(vs) == None
    ensures n < |vs| && DefaultAll(vs[..n]).Some? && Default(vs[n]).Some? ==>
      DefaultAll(vs[..n + 1]) == Some(DefaultAll(vs[..n]).value + [Default(vs[n]).value])
    decreases n
  {
    hide Default;
    if n > 0 {
      assert vs[..n][0] == vs[0] && vs[..n][1..] == vs[1..][..n - 1];
      if n < |vs| { assert vs[..n + 1][0] == vs[0] && vs[..n + 1][1..] == vs[1..][..n]; }
      DefaultPrefix(vs[1..], n - 1);
      var h, t := Default(vs[0]), DefaultAll(vs[1..][..n - 1]);
      if n < |vs| && h.Some? && t.Some? && Default(vs[n]).Some? {
        Rejoined(h.value, t.value, Default(vs[n]).value);
      }
    } else if n < |vs| {
      assert vs[..1][1..] == [] && vs[..1][0] == vs[0] && vs[..0] == [];
      assert DefaultAll(vs[..1][1..]) == Some([]);
      if Default(vs[0]).Some? { assert [Default(vs[0]).value] + [] == [] + [Default(vs[0]).value]; }
    }
  }

  /** Each array is validated minimally once more before its offsets are read. */
  method ValidateDefault(v: ArrayView) returns (r: Option<ArrayView>)
    ensures r == Default(v)
    decreases Height(v)
  {
    hide Minimal, MinimalChildren, DefaultAll, DefaultOwn;
    var m := ValidateMinimal(v);
    if m == None { return None; }
    MinimalFacts(v);
    MinimalKeepsHeight(v);
    var own := DefaultOwn(m.value);
    if own == None { return None; }
    OwnKeepsChildren(m.value);
    var before := own.value.children;
    var children: seq<ArrayView> := [];
    var i := 0;
    NoneDefault(before);
    while i < |before|
      invariant 0 <= i <= |before| && DefaultAll(before[..i]) == Some(children)
    {
      ChildHeight(before, i);
      var child := ValidateDefault(before[i]);
      DefaultPrefix(before, i);
      if child == None { return None; }
      children := children + [child.value];
      i := i + 1;
    }
    assert before[..i] == before;
    return Some(own.value.(children := children));
  }

  lemma OwnKeepsChildren(m: ArrayView)
    requires m.offset >= 0 && m.length >= 0 && MinimalChildren(m) && DefaultOwn(m).Some?
    ensures DefaultOwn(m).value.children == m.children
  {
  }

  lemma NoneDefault(vs: seq<ArrayView>)
    ensures DefaultAll(vs[..0]) == Some([])
  {
  }

  /** Validates at a level; nothing is returned for a view that is refused. */
  method Validate(v: ArrayView, level: Level) returns (r: Option<ArrayView>)
    ensures level.NoValidation? ==> r == Some(v)
    ensures level.MinimalLevel? ==> r == Minimal(v)
    ensures level.DefaultLevel? ==> r == Default(v)
    ensures level.FullLevel? ==> r == Accepted(v)
  {
    if level.NoValidation? { return Some(v); }
    if level.MinimalLevel? { r := ValidateMinimal(v); return; }
    r := ValidateDefault(v);
    if level.DefaultLevel? || r == None { return; }
    DefaultWellShaped(v, r.value);
    var ok := ValidateFull(r.value);
    if !ok { return None; }
  }

  method ValidateFull(v: ArrayView) returns (ok: bool)
    requires WellShaped(v)
    ensures ok <==> Full(v)
    decreases v
  {
    if v.kind.Blobs? || v.kind.Lists? {
      var increasing := AssertIncreasing(v.second, v.offset, v.length);
      if !increasing { return false; }
    }
    if v.kind.RunEnds? {
      var increasing := AssertRunsIncrease(v.children[0]);
      if !increasing { return false; }
    }
    var i := 0;
    while i < |v.children|
      invariant 0 <= i <= |v.children| && forall j | 0 <= j < i :: Full(v.children[j])
    {
      var valid := ValidateFull(v.children[i]);
      if !valid { return false; }
      i := i + 1;
    }
    return true;
  }
}
