/** Arrays of binary views: 16 bytes for each element, which hold a short byte string or say where in
    the variadic buffers a long one lies. */
module BinaryViews {
  import opened FlatBytes
  import opened Wrappers
  import Bitmap

  const INLINE_SIZE: nat := 12
  const PREFIX_SIZE: nat := 4
  const VIEW_SIZE: nat := 16
  const BLOCK_SIZE: nat := 32768
  const I32_END: int := 0x8000_0000

  type Bytes = seq<byte>

  function InlineView(b: Bytes): (v: Bytes)
    requires |b| <= INLINE_SIZE
    ensures |v| == VIEW_SIZE
  {
    Le32(|b|) + (b + Zeros(INLINE_SIZE - |b|))
  }

  function RefView(b: Bytes, index: nat, offset: nat): (v: Bytes)
    requires INLINE_SIZE < |b| < I32_END && index < I32_END && offset < I32_END
    ensures |v| == VIEW_SIZE
  {
    Le32(|b|) + (b[..PREFIX_SIZE] + (Le32(index) + Le32(offset)))
  }

  /** The 16 bytes of element `i`. */
  function ViewAt(views: Bytes, i: nat): (v: Bytes)
    requires VIEW_SIZE * i + VIEW_SIZE <= |views|
    ensures |v| == VIEW_SIZE
  {
    views[VIEW_SIZE * i..VIEW_SIZE * i + VIEW_SIZE]
  }

  /** Whether a reader that follows the view stays inside the buffers. */
  predicate Readable(v: Bytes, buffers: seq<Bytes>)
    requires |v| == VIEW_SIZE
  {
    U32At(v, 0) <= INLINE_SIZE || (U32At(v, 8) < |buffers| && U32At(v, 12) + U32At(v, 0) <= |buffers[U32At(v, 8)]|)
  }

  /** What the view stands for. */
  function Decode(v: Bytes, buffers: seq<Bytes>): Bytes
    requires |v| == VIEW_SIZE && Readable(v, buffers)
  {
    var size := U32At(v, 0);
    if size <= INLINE_SIZE then v[4..4 + size]
    else var from := U32At(v, 12); buffers[U32At(v, 8)][from..from + size]
  }

  /** The bytes after the size: the first four of a long value, all of a short one and zeros. */
  predicate PrefixOk(v: Bytes, b: Bytes)
    requires |v| == VIEW_SIZE
  {
    if |b| > INLINE_SIZE then v[4..8] == b[..PREFIX_SIZE] else v[4..] == b + Zeros(INLINE_SIZE - |b|)
  }

  lemma InlineDecodes(b: Bytes, buffers: seq<Bytes>)
    requires |b| <= INLINE_SIZE
    ensures Readable(InlineView(b), buffers) && Decode(InlineView(b), buffers) == b
    ensures PrefixOk(InlineView(b), b)
  {
  }

  lemma RefWords(b: Bytes, index: nat, offset: nat)
    requires INLINE_SIZE < |b| < I32_END && index < I32_END && offset < I32_END
    ensures var v := RefView(b, index, offset);
      U32At(v, 0) == |b| && U32At(v, 8) == index && U32At(v, 12) == offset && v[4..8] == b[..PREFIX_SIZE]
  {
  }

  lemma RefDecodes(b: Bytes, index: nat, offset: nat, buffers: seq<Bytes>)
    requires INLINE_SIZE < |b| < I32_END && index < I32_END && offset < I32_END
    requires index < |buffers| && offset + |b| <= |buffers[index]| && buffers[index][offset..offset + |b|] == b
    ensures Readable(RefView(b, index, offset), buffers) && Decode(RefView(b, index, offset), buffers) == b
    ensures PrefixOk(RefView(b, index, offset), b)
  {
    hide U32At, RefView;
    RefWords(b, index, offset);
  }

  /** Buffers only grow at their ends, and new ones come last. */
  ghost predicate Grew(was: seq<Bytes>, now: seq<Bytes>)
  {
    |was| <= |now| && forall i | 0 <= i < |was| :: |was[i]| <= |now[i]| && now[i][..|was[i]|] == was[i]
  }

  lemma DecodeKept(v: Bytes, was: seq<Bytes>, now: seq<Bytes>)
    requires |v| == VIEW_SIZE && Readable(v, was) && Grew(was, now)
    ensures Readable(v, now) && Decode(v, now) == Decode(v, was)
  {
    var size := U32At(v, 0);
    if size > INLINE_SIZE {
      var i, from := U32At(v, 8), U32At(v, 12);
      SliceOfPrefix(now[i], |was[i]|, from, from + size);
    }
  }

  lemma SliceOfPrefix(b: Bytes, n: nat, from: nat, to: nat)
    requires from <= to <= n <= |b|
    ensures b[..n][from..to] == b[from..to]
  {
  }

  // ---------------------------------------------------------------------- the elements

  /** Element `i` of the views decodes to `values[i]`; nulls have a view that no reader follows. */
  ghost predicate Decodes(views: Bytes, buffers: seq<Bytes>, values: seq<Option<Bytes>>, i: nat)
    requires i < |values| && VIEW_SIZE * |values| == |views|
  {
    var v := ViewAt(views, i);
    Readable(v, buffers) && (values[i].Some? ==> Decode(v, buffers) == values[i].value && PrefixOk(v, values[i].value))
  }

  ghost predicate AllDecode(views: Bytes, buffers: seq<Bytes>, values: seq<Option<Bytes>>)
  {
    VIEW_SIZE * |values| == |views| && forall i | 0 <= i < |values| :: Decodes(views, buffers, values, i)
  }

  lemma ViewAppended(views: Bytes, v: Bytes, n: nat, i: nat)
    requires |views| == VIEW_SIZE * n && |v| == VIEW_SIZE && i <= n
    ensures ViewAt(views + v, i) == if i < n then ViewAt(views, i) else v
  {
  }

  lemma ElementAppended(views: Bytes, was: seq<Bytes>, now: seq<Bytes>, values: seq<Option<Bytes>>, v: Bytes,
      value: Option<Bytes>)
    requires AllDecode(views, was, values) && Grew(was, now) && |v| == VIEW_SIZE && Readable(v, now)
    requires value.Some? ==> Decode(v, now) == value.value && PrefixOk(v, value.value)
    ensures AllDecode(views + v, now, values + [value])
  {
    hide Readable, Decode, PrefixOk, ViewAt, Grew;
    var n := |values|;
    forall i | 0 <= i < n + 1 ensures Decodes(views + v, now, values + [value], i) {
      ViewAppended(views, v, n, i);
      if i < n {
        assert Decodes(views, was, values, i);
        DecodeKept(ViewAt(views, i), was, now);
      }
    }
  }

  lemma NullReads(buffers: seq<Bytes>)
    ensures Readable(Zeros(VIEW_SIZE), buffers)
  {
  }

  /** Whether a long value opens a new variadic buffer. */
  predicate OpensBlock(buffers: seq<Bytes>, b: Bytes)
  {
    |b| > INLINE_SIZE && (buffers == [] || |buffers[|buffers| - 1]| + |b| > BLOCK_SIZE)
  }

  /** The view `v` of `value` leads to variadic buffer `i`. */
  predicate LeadsTo(v: Bytes, value: Option<Bytes>, i: nat)
    requires |v| == VIEW_SIZE
  {
    value.Some? && |value.value| > INLINE_SIZE && U32At(v, 8) == i
  }

  /** The values whose views lead to variadic buffer `i`, in order. */
  ghost function ValuesIn(views: Bytes, values: seq<Option<Bytes>>, i: nat): seq<Bytes>
    requires VIEW_SIZE * |values| == |views|
  {
    if values == [] then [] else
    var n := |values| - 1;
    ValuesIn(views[..VIEW_SIZE * n], values[..n], i) +
    if LeadsTo(ViewAt(views, n), values[n], i) then [values[n].value] else []
  }

  function Joined(parts: seq<Bytes>): Bytes
  {
    if parts == [] then [] else Joined(parts[..|parts| - 1]) + parts[|parts| - 1]
  }

  lemma JoinedMore(parts: seq<Bytes>, b: Bytes)
    ensures Joined(parts + [b]) == Joined(parts) + b
  {
    assert (parts + [b])[..|parts|] == parts;
  }

  lemma ValuesMore(views: Bytes, values: seq<Option<Bytes>>, v: Bytes, value: Option<Bytes>, i: nat)
    requires VIEW_SIZE * |values| == |views| && |v| == VIEW_SIZE
    ensures ValuesIn(views + v, values + [value], i)
         == if LeadsTo(v, value, i) then ValuesIn(views, values, i) + [value.value] else ValuesIn(views, values, i)
  {
    hide U32At;
    var n := |values|;
    ViewAppended(views, v, n, n);
    assert (views + v)[..VIEW_SIZE * n] == views && (values + [value])[..n] == values;
  }

  /** A buffer holds exactly the values that lead to it, one after the other, and they fit into a
      block unless there is only one. A new buffer is opened only for a value that would have made the
      one before it larger than a block. */
  ghost predicate BlockOk(views: Bytes, values: seq<Option<Bytes>>, buffers: seq<Bytes>, i: nat)
    requires VIEW_SIZE * |values| == |views| && i < |buffers|
  {
    var held := ValuesIn(views, values, i);
    && buffers[i] == Joined(held) && held != [] && (|buffers[i]| <= BLOCK_SIZE || |held| == 1)
    && (i > 0 ==> |buffers[i - 1]| + |held[0]| > BLOCK_SIZE)
  }

  ghost predicate BlocksOk(views: Bytes, values: seq<Option<Bytes>>, buffers: seq<Bytes>)
  {
    VIEW_SIZE * |values| == |views| && |buffers| < I32_END && forall i | 0 <= i < |buffers| ::
      BlockOk(views, values, buffers, i)
  }

  /** No view leads behind the last buffer. */
  lemma {:induction false} NothingBehind(views: Bytes, buffers: seq<Bytes>, values: seq<Option<Bytes>>, i: nat)
    requires AllDecode(views, buffers, values) && i >= |buffers|
    ensures ValuesIn(views, values, i) == []
    decreases |values|
  {
    if values != [] {
      var n := |values| - 1;
      AllButLast(views, buffers, values);
      NothingBehind(views[..VIEW_SIZE * n], buffers, values[..n], i);
      assert Decodes(views, buffers, values, n);
    }
  }

  lemma AllButLast(views: Bytes, buffers: seq<Bytes>, values: seq<Option<Bytes>>)
    requires AllDecode(views, buffers, values) && values != []
    ensures var n := |values| - 1; AllDecode(views[..VIEW_SIZE * n], buffers, values[..n])
  {
    hide Readable, Decode, PrefixOk;
    var n := |values| - 1;
    forall i | 0 <= i < n ensures Decodes(views[..VIEW_SIZE * n], buffers, values[..n], i) {
      assert Decodes(views, buffers, values, i);
      assert ViewAt(views[..VIEW_SIZE * n], i) == ViewAt(views, i);
    }
  }

  /** A short value, or a null, leaves the buffers as they are. */
  lemma BlocksKept(views: Bytes, values: seq<Option<Bytes>>, buffers: seq<Bytes>, v: Bytes, value: Option<Bytes>)
    requires BlocksOk(views, values, buffers) && |v| == VIEW_SIZE
    requires value.Some? ==> |value.value| <= INLINE_SIZE
    ensures BlocksOk(views + v, values + [value], buffers)
  {
    hide ValuesIn, Joined;
    forall i | 0 <= i < |buffers| ensures BlockOk(views + v, values + [value], buffers, i) {
      assert BlockOk(views, values, buffers, i);
      ValuesMore(views, values, v, value, i);
    }
  }

  /** A long value goes behind the others of its buffer. */
  lemma BlocksGrow(views: Bytes, values: seq<Option<Bytes>>, buffers: seq<Bytes>, v: Bytes, b: Bytes, now: seq<Bytes>)
    requires BlocksOk(views, values, buffers) && AllDecode(views, buffers, values) && |v| == VIEW_SIZE
    requires INLINE_SIZE < |b| && now != [] && |now| < I32_END && U32At(v, 8) == |now| - 1
    requires if OpensBlock(buffers, b) then now == buffers + [b]
             else buffers != [] && now == buffers[|buffers| - 1 := buffers[|buffers| - 1] + b]
    ensures BlocksOk(views + v, values + [Some(b)], now)
  {
    hide ValuesIn, Joined, AllDecode, U32At;
    forall i | 0 <= i < |now| ensures BlockOk(views + v, values + [Some(b)], now, i) {
      ValuesMore(views, values, v, Some(b), i);
      if i < |buffers| { assert BlockOk(views, values, buffers, i); }
      if i == |now| - 1 {
        JoinedMore(ValuesIn(views, values, i), b);
        if i == |buffers| { NothingBehind(views, buffers, values, i); NothingJoined(); }
      }
    }
  }

  /** Element `j` is the only one that leads to buffer `i`. */
  ghost predicate OnlyValueIn(views: Bytes, values: seq<Option<Bytes>>, j: int, i: nat)
    requires VIEW_SIZE * |values| == |views|
  {
    && 0 <= j < |values| && LeadsTo(ViewAt(views, j), values[j], i)
    && forall k | 0 <= k < |values| :: LeadsTo(ViewAt(views, k), values[k], i) ==> k == j
  }

  lemma {:induction false} NoHolder(views: Bytes, values: seq<Option<Bytes>>, i: nat, k: nat)
    requires VIEW_SIZE * |values| == |views| && ValuesIn(views, values, i) == [] && k < |values|
    ensures !LeadsTo(ViewAt(views, k), values[k], i)
    decreases |values|
  {
    hide U32At;
    var n := |values| - 1;
    if k < n {
      NoHolder(views[..VIEW_SIZE * n], values[..n], i, k);
      assert ViewAt(views[..VIEW_SIZE * n], k) == ViewAt(views, k);
    }
  }

  lemma {:induction false} OnlyHolder(views: Bytes, values: seq<Option<Bytes>>, i: nat) returns (j: nat)
    requires VIEW_SIZE * |values| == |views| && |ValuesIn(views, values, i)| == 1
    ensures OnlyValueIn(views, values, j, i) && ValuesIn(views, values, i) == [values[j].value]
    decreases |values|
  {
    hide U32At;
    var n := |values| - 1;
    var front, vs := views[..VIEW_SIZE * n], values[..n];
    if LeadsTo(ViewAt(views, n), values[n], i) {
      j := n;
    } else {
      j := OnlyHolder(front, vs, i);
      assert ViewAt(front, j) == ViewAt(views, j);
    }
    forall k | 0 <= k < |values| && LeadsTo(ViewAt(views, k), values[k], i) ensures k == j {
      if k < n {
        assert ViewAt(front, k) == ViewAt(views, k);
        if j == n { NoHolder(front, vs, i, k); }
      }
    }
  }

  lemma NothingJoined()
    ensures Joined([]) == []
  {
  }

  class ViewBuilder {
    var views: Bytes
    var buffers: seq<Bytes>
    var bufferSizes: seq<int>
    var bitmap: Option<seq<bool>>
    var length: nat
    var nullCount: nat

    /** The elements appended. */
    ghost var values: seq<Option<Bytes>>

    ghost predicate Valid()
      reads this
    {
      && AllDecode(views, buffers, values) && BlocksOk(views, values, buffers) && length == |values|
      && BitmapOk(bitmap, values) && SizesOk(buffers, bufferSizes) && nullCount == Absent(values)
    }

    static function Absent(values: seq<Option<Bytes>>): nat
    {
      if values == [] then 0 else Absent(values[..|values| - 1]) + (if values[|values| - 1] == None then 1 else 0)
    }

    static lemma {:induction false} MoreAbsent(values: seq<Option<Bytes>>, n: nat)
      ensures Absent(values + Nones(n)) == Absent(values) + n
      decreases n
    {
      if n == 0 {
        assert values + Nones(0) == values;
      } else {
        MoreAbsent(values, n - 1);
        assert (values + Nones(n))[..|values| + n - 1] == values + Nones(n - 1);
      }
    }

    static lemma OnePresent(values: seq<Option<Bytes>>, value: Option<Bytes>)
      requires value.Some?
      ensures Absent(values + [value]) == Absent(values)
    {
    }

    static ghost predicate BitmapOk(bitmap: Option<seq<bool>>, values: seq<Option<Bytes>>)
    {
      if bitmap == None then forall i | 0 <= i < |values| :: values[i].Some?
      else |bitmap.value| == |values| && forall i | 0 <= i < |values| :: bitmap.value[i] == values[i].Some?
    }

    static ghost predicate SizesOk(buffers: seq<Bytes>, sizes: seq<int>)
    {
      |buffers| == |sizes| && forall i | 0 <= i < |buffers| :: sizes[i] == |buffers[i]|
    }

    constructor ()
      ensures Valid() && values == []
    {
      views, buffers, bufferSizes, bitmap, length, nullCount := [], [], [], None, 0, 0;
      values := [];
    }

    /** Appends a byte string: in place when it is short, else at the end of the last variadic buffer,
        or of a new one when that would outgrow a block. */
    method AppendBytes(b: Bytes)
      requires Valid() && |b| < I32_END && |buffers| + 1 < I32_END
      modifies this
      ensures Valid() && values == old(values) + [Some(b)]
      ensures |buffers| == |old(buffers)| + (if OpensBlock(old(buffers), b) then 1 else 0)
      ensures |b| <= INLINE_SIZE ==> buffers == old(buffers)
    {
      hide AllDecode, BlocksOk, BitmapOk, SizesOk, InlineView, RefView, Readable, Decode, PrefixOk;
      var view;
      if |b| <= INLINE_SIZE {
        view := InlineView(b);
        InlineDecodes(b, buffers);
        SameGrew(buffers);
        ElementAppended(views, buffers, buffers, values, view, Some(b));
        BlocksKept(views, values, buffers, view, Some(b));
      } else {
        ghost var was := buffers;
        var index, offset := Place(b);
        view := RefView(b, index, offset);
        RefDecodes(b, index, offset, buffers);
        RefWords(b, index, offset);
        ElementAppended(views, was, buffers, values, view, Some(b));
        BlocksGrow(views, values, was, view, b, buffers);
      }
      views := views + view;
      FinishValue(Some(b));
    }

    static lemma SameGrew(buffers: seq<Bytes>)
      ensures Grew(buffers, buffers)
    {
    }

    /** Stores a long value, and says where. */
    method Place(b: Bytes) returns (index: nat, offset: nat)
      requires SizesOk(buffers, bufferSizes) && |buffers| + 1 < I32_END
      requires INLINE_SIZE < |b| < I32_END
      modifies this`buffers, this`bufferSizes
      ensures SizesOk(buffers, bufferSizes) && Grew(old(buffers), buffers) && buffers != []
      ensures |buffers| == |old(buffers)| + (if OpensBlock(old(buffers), b) then 1 else 0)
      ensures index == |buffers| - 1 && offset < I32_END && offset + |b| <= |buffers[index]|
      ensures buffers[index][offset..offset + |b|] == b
      ensures if OpensBlock(old(buffers), b) then buffers == old(buffers) + [b]
              else old(buffers) != [] && buffers == old(buffers)[index := old(buffers)[index] + b]
    {
      var n := |buffers|;
      if n == 0 || |buffers[n - 1]| + |b| > BLOCK_SIZE {
        buffers, bufferSizes := buffers + [[]], bufferSizes + [0];
        n := n + 1;
      }
      index, offset := n - 1, |buffers[n - 1]|;
      buffers := buffers[index := buffers[index] + b];
      assert [] + b == b;
      bufferSizes := bufferSizes[index := |buffers[index]|];
    }

    /** The bitmap gets a bit once there is one. */
    method FinishValue(ghost value: Option<Bytes>)
      requires value.Some? && BitmapOk(bitmap, values) && nullCount == Absent(values) && length == |values| &&
        SizesOk(buffers, bufferSizes)
      requires AllDecode(views, buffers, values + [value]) && BlocksOk(views, values + [value], buffers)
      modifies this`bitmap, this`length, this`values
      ensures Valid() && values == old(values) + [value]
    {
      hide AllDecode, BlocksOk, SizesOk;
      OnePresent(values, value);
      if bitmap.Some? { bitmap := Some(Bitmap.Extended(true, bitmap.value, length, 1, true)); }
      length, values := length + 1, values + [value];
    }

    /** Appends nulls: all-zero views. */
    method AppendNull(n: nat)
      requires Valid()
      modifies this
      ensures Valid() && values == old(values) + Nones(n)
    {
      hide AllDecode, BlocksOk, SizesOk;
      if n == 0 { assert values + Nones(0) == values; return; }
      NullsAppended(views, buffers, values, n);
      MoreAbsent(values, n);
      bitmap := Some(Bitmap.Extended(bitmap.Some?, if bitmap.Some? then bitmap.value else [], length, n, false));
      views := views + Zeros(VIEW_SIZE * n);
      length, nullCount := length + n, nullCount + n;
      values := values + Nones(n);
    }

    static function Nones(n: nat): (s: seq<Option<Bytes>>)
      ensures |s| == n
    {
      seq(n, _ => None)
    }

    static lemma {:induction false} NullsAppended(views: Bytes, buffers: seq<Bytes>, values: seq<Option<Bytes>>, n: nat)
      requires AllDecode(views, buffers, values) && BlocksOk(views, values, buffers)
      ensures AllDecode(views + Zeros(VIEW_SIZE * n), buffers, values + Nones(n))
      ensures BlocksOk(views + Zeros(VIEW_SIZE * n), values + Nones(n), buffers)
      decreases n
    {
      hide AllDecode, BlocksOk;
      if n == 0 {
        assert views + Zeros(0) == views && values + Nones(0) == values;
      } else {
        NullsAppended(views, buffers, values, n - 1);
        NullReads(buffers);
        SameGrew(buffers);
        ElementAppended(views + Zeros(VIEW_SIZE * (n - 1)), buffers, buffers, values + Nones(n - 1), Zeros(VIEW_SIZE),
          None);
        BlocksKept(views + Zeros(VIEW_SIZE * (n - 1)), values + Nones(n - 1), buffers, Zeros(VIEW_SIZE), None);
        assert views + Zeros(VIEW_SIZE * n) == (views + Zeros(VIEW_SIZE * (n - 1))) + Zeros(VIEW_SIZE);
        assert values + Nones(n) == (values + Nones(n - 1)) + [None];
      }
    }

    // ------------------------------------------------------------------------ readers

    /** The reader of one element that is not null. */
    method GetBytes(i: nat) returns (b: Bytes)
      requires Valid() && i < length && values[i].Some?
      ensures b == values[i].value
    {
      hide BlocksOk, SizesOk, BitmapOk, AllDecode, PrefixOk, U32At, ViewAt;
      ElementReads(i);
      var view := ViewAt(views, i);
      var size := U32At(view, 0);
      if size <= INLINE_SIZE { return view[4..4 + size]; }
      var buffer, from := buffers[U32At(view, 8)], U32At(view, 12);
      b := buffer[from..from + size];
    }

    method IsNull(i: nat) returns (isNull: bool)
      requires Valid() && i < length
      ensures isNull <==> values[i] == None
    {
      isNull := bitmap.Some? && !bitmap.value[i];
    }

    /** The decoder of a range of elements, which reads the views' bytes itself. */
    method StringViews(elementOffset: nat, elementCount: nat) returns (terms: seq<Option<Bytes>>)
      requires Valid() && elementOffset + elementCount <= length
      ensures terms == values[elementOffset..elementOffset + elementCount]
    {
      terms := [];
      var i := elementOffset;
      while i < elementOffset + elementCount
        invariant elementOffset <= i <= elementOffset + elementCount && terms == values[elementOffset..i]
      {
        var term := DecodeAt(i);
        terms := terms + [term];
        i := i + 1;
      }
    }

    method DecodeAt(i: nat) returns (term: Option<Bytes>)
      requires Valid() && i < length
      ensures term == values[i]
    {
      hide BlocksOk, SizesOk, AllDecode, PrefixOk, U32At, ViewAt;
      if bitmap.Some? && !bitmap.value[i] { return None; }
      ElementReads(i);
      var at := VIEW_SIZE * i;
      ViewWords(views, i);
      var size := U32At(views, at);
      if size <= INLINE_SIZE {
        ViewBytes(views, i, size);
        return Some(views[at + 4..at + 4 + size]);
      }
      var buffer, from := buffers[U32At(views, at + 8)], U32At(views, at + 12);
      term := Some(buffer[from..from + size]);
    }

    lemma ElementReads(i: nat)
      requires Valid() && i < length && values[i].Some?
      ensures VIEW_SIZE * i + VIEW_SIZE <= |views|
      ensures Readable(ViewAt(views, i), buffers) && Decode(ViewAt(views, i), buffers) == values[i].value
    {
      hide BlocksOk, SizesOk, BitmapOk, Readable, Decode, PrefixOk, ViewAt;
      assert Decodes(views, buffers, values, i);
    }

    static lemma ViewWords(views: Bytes, i: nat)
      requires VIEW_SIZE * i + VIEW_SIZE <= |views|
      ensures var at, v := VIEW_SIZE * i, ViewAt(views, i);
        U32At(v, 0) == U32At(views, at) && U32At(v, 8) == U32At(views, at + 8) && U32At(v, 12) == U32At(views, at + 12)
    {
      hide U32At;
      var at, v := VIEW_SIZE * i, ViewAt(views, i);
      assert |v| == VIEW_SIZE && v == views[at..at + VIEW_SIZE];
      assert v[0..VIEW_SIZE] == v;
      SameWindow(v, 0, views, at, VIEW_SIZE, 0);
      SameWindow(v, 0, views, at, VIEW_SIZE, 8);
      SameWindow(v, 0, views, at, VIEW_SIZE, 12);
    }

    static lemma ViewBytes(views: Bytes, i: nat, n: nat)
      requires VIEW_SIZE * i + VIEW_SIZE <= |views| && 4 + n <= VIEW_SIZE
      ensures ViewAt(views, i)[4..4 + n] == views[VIEW_SIZE * i + 4..VIEW_SIZE * i + 4 + n]
    {
      var at, v := VIEW_SIZE * i, ViewAt(views, i);
      var a, b := v[4..4 + n], views[at + 4..at + 4 + n];
      forall k | 0 <= k < n ensures a[k] == b[k] { assert v[4 + k] == views[at + (4 + k)]; }
      assert a == b;
    }

    /** What the format asks of a view: a long one repeats the first bytes of its value and gives a
        place inside a buffer where the value lies; a short one is the value, followed by zeros. */
    lemma ViewWellFormed(i: nat)
      requires Valid() && i < length && values[i].Some?
      ensures VIEW_SIZE * i + VIEW_SIZE <= |views|
      ensures var v, b := ViewAt(views, i), values[i].value;
        && U32At(v, 0) == |b| && PrefixOk(v, b)
        && (|b| > INLINE_SIZE ==>
            var index, from := U32At(v, 8), U32At(v, 12);
            index < |buffers| && from + |b| <= |buffers[index]| && buffers[index][from..from + |b|] == b)
    {
      hide BlocksOk, SizesOk, BitmapOk, U32At, ViewAt;
      assert Decodes(views, buffers, values, i);
    }

    /** A buffer larger than a block holds the value of exactly one element, and nothing else; in every
        case its size is the one stored for the reader. The first value of a buffer would not have fitted
        into a block with the buffer before. */
    lemma BufferWellFormed(i: nat)
      requires Valid() && i < |buffers|
      ensures |bufferSizes| == |buffers| && bufferSizes[i] == |buffers[i]| && VIEW_SIZE * |values| == |views|
      ensures |buffers[i]| <= BLOCK_SIZE ||
        exists j :: OnlyValueIn(views, values, j, i) && values[j].value == buffers[i]
      ensures var held := ValuesIn(views, values, i);
        held != [] && (i > 0 ==> |buffers[i - 1]| + |held[0]| > BLOCK_SIZE)
    {
      hide AllDecode, BitmapOk, ValuesIn;
      assert BlockOk(views, values, buffers, i);
      if |buffers[i]| > BLOCK_SIZE {
        var j := OnlyHolder(views, values, i);
        assert [] + [values[j].value] == [values[j].value] && [] + values[j].value == values[j].value;
        JoinedMore([], values[j].value);
      }
    }
  }
}
