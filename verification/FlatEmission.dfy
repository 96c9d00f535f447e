/** The builder's direct `create` calls, as functions on the virtual address space, and what each
    lays out. Every object is emitted in front, padded so that its first element is aligned. */
module FlatEmission {
  import opened FlatBytes
  import opened FlatSchema
  import opened FlatGraph

  /** The new space and the reference returned; a failed call returns reference 0. */
  datatype Emitted = Failed | Emitted(sp: Space, ref: int)

  /** A space the builder can be in: it spans 0 and its ends are signed 32-bit numbers. */
  predicate ValidSpace(sp: Space)
  {
    -U32 / 2 <= sp.start <= 0 <= sp.End() < U32 / 2
  }

  function Int32(x: int): (r: int)
    ensures -U32 / 2 <= r < U32 / 2
  {
    (x + U32 / 2) % U32 - U32 / 2
  }

  function EmitFront(sp: Space, data: seq<byte>): Emitted
    requires ValidSpace(sp)
  {
    var ref := Int32(sp.start - |data|);
    if (|data| > 16 && |data| - 16 > U32 - 1) || ref >= sp.start then Failed
    else Emitted(Space(ref, data + sp.bytes), ref)
  }

  function EmitBack(sp: Space, data: seq<byte>): Emitted
    requires ValidSpace(sp)
  {
    var end := Int32(sp.End() + |data|);
    if end < sp.End() then Failed else Emitted(Space(sp.start, sp.bytes + data), sp.End() + 1)
  }

  /** `data` lies at the new start, which is the reference; what was emitted before stays in place. */
  predicate Prepended(sp: Space, r: Emitted, data: seq<byte>)
  {
    && r.Emitted? && ValidSpace(r.sp) && r.ref == r.sp.start == sp.start - |data| && r.ref < sp.start
    && Extends(sp, r.sp) && r.sp.End() == sp.End() && r.sp.Has(r.ref, |data|) && r.sp.Slice(r.ref, |data|) == data
  }

  /** `data` lies at the old end, one below the reference. */
  predicate Appended(sp: Space, r: Emitted, data: seq<byte>)
  {
    && r.Emitted? && ValidSpace(r.sp) && r.ref == sp.End() + 1 && r.sp.start == sp.start
    && Extends(sp, r.sp) && r.sp.End() == sp.End() + |data|
    && r.sp.Has(sp.End(), |data|) && r.sp.Slice(sp.End(), |data|) == data
  }

  /** A front emission fails exactly when it is empty or the space has no room for it, and when its
      length, taken modulo 2^32 because of the 16 bytes granted to headers, is 0 or has none. If it
      does not fail, the bytes lie at the new start and everything emitted before stays, exactly when
      the length is below 2^32. */
  lemma EmitFrontResult(sp: Space, data: seq<byte>)
    requires ValidSpace(sp)
    ensures |data| < U32 ==> (EmitFront(sp, data).Failed? <==> |data| == 0 || sp.start - |data| < -U32 / 2)
    ensures |data| >= U32 ==>
      (EmitFront(sp, data).Failed? <==> |data| == U32 || |data| - U32 > 15 || sp.start - (|data| - U32) < -U32 / 2)
    ensures EmitFront(sp, data).Emitted? ==> (Prepended(sp, EmitFront(sp, data), data) <==> |data| < U32)
  {
    var r := EmitFront(sp, data);
    if r.Emitted? {
      assert r.sp.bytes[|data|..] == sp.bytes;
      assert r.sp.bytes[..|data|] == data;
    }
  }

  /** A back emission fails exactly when the space has no room for its length modulo 2^32. */
  lemma EmitBackResult(sp: Space, data: seq<byte>)
    requires ValidSpace(sp)
    ensures EmitBack(sp, data).Failed? <==> sp.End() + |data| % U32 >= U32 / 2
    ensures |data| < U32 ==> |data| % U32 == |data|
    ensures EmitBack(sp, data).Emitted? ==> (Appended(sp, EmitBack(sp, data), data) <==> |data| < U32)
  {
    var r := EmitBack(sp, data);
    if r.Emitted? {
      assert r.sp.bytes[..|sp.bytes|] == sp.bytes;
      assert r.sp.bytes[|sp.bytes|..] == data;
    }
  }

  /** Reading a piece of what was just emitted. */
  lemma PieceEmitted(sp: Space, a: int, whole: seq<byte>, before: seq<byte>, piece: seq<byte>, after: seq<byte>)
    requires whole == before + piece + after && sp.Has(a, |whole|) && sp.Slice(a, |whole|) == whole
    ensures sp.Has(a + |before|, |piece|) && sp.Slice(a + |before|, |piece|) == piece
  {
    var i := a - sp.start;
    assert sp.bytes[i..i + |whole|][|before|..|before| + |piece|] == piece;
  }

  lemma WordEmitted(sp: Space, a: int, v: int)
    requires 0 <= v < U32 && sp.Has(a, 4) && sp.Slice(a, 4) == Le32(v)
    ensures sp.Word32(a) == v
  {
    ReadLe32(sp.bytes, a - sp.start, v);
  }

  function FrontPad(sp: Space, size: int, align: int): (pad: int)
    requires align > 0
    ensures 0 <= pad < align
  {
    (sp.start - size) % align
  }

  lemma FrontPadAligns(sp: Space, size: int, align: int)
    requires align > 0
    ensures (sp.start - size - FrontPad(sp, size, align)) % align == 0
  {
    PadAligns(sp.start - size, align);
  }

  // ------------------------------------------------------------ strings and vectors

  /** A header word, a body, and padding that makes the body's first byte aligned. */
  function Padded(sp: Space, header: int, body: seq<byte>, align: int): seq<byte>
    requires 0 <= header < U32 && align > 0
  {
    Le32(header) + body + Zeros(FrontPad(sp, |body|, align))
  }

  predicate PaddedAt(sp: Space, a: int, header: int, body: seq<byte>, align: int)
    requires align > 0
  {
    && a % 4 == 0 && (a + 4) % align == 0 && sp.Has(a, 4 + |body|)
    && sp.Word32(a) == header && sp.Slice(a + 4, |body|) == body
  }

  lemma PaddedEmitted(sp: Space, header: int, body: seq<byte>, align: int)
    requires ValidSpace(sp) && 0 <= header < U32 && ValidAlign(align) && align >= 4
    requires |Padded(sp, header, body, align)| < U32
    ensures var r := EmitFront(sp, Padded(sp, header, body, align));
      r.Emitted? ==> Prepended(sp, r, Padded(sp, header, body, align)) && PaddedAt(r.sp, r.ref, header, body, align)
    ensures var r, a := EmitFront(sp, Padded(sp, header, body, align)), AlignDown(sp.start - |body|, align) - 4;
      (r.Emitted? <==> a >= -U32 / 2) && (r.Emitted? ==> r.ref == a)
  {
    hide Le32, Zeros, IsPow2;
    assert FrontPad(sp, |body|, align) == (sp.start - |body|) % align;
    hide FrontPad;
    var pad := FrontPad(sp, |body|, align);
    var data := Padded(sp, header, body, align);
    EmitFrontResult(sp, data);
    var r := EmitFront(sp, data);
    if r.Emitted? {
      hide EmitFront, Extends;
      FrontPadAligns(sp, |body|, align);
      BodyAligned(r.ref, align);
      PiecesEmitted(r.sp, r.ref, header, body, Zeros(pad));
    }
  }

  lemma BodyAligned(a: int, align: int)
    requires ValidAlign(align) && align >= 4 && (a + 4) % align == 0
    ensures a % 4 == 0
  {
    SmallPowers();
    AlignedToLess(a + 4, 4, align);
  }

  lemma PiecesEmitted(sp: Space, a: int, header: int, body: seq<byte>, pad: seq<byte>)
    requires 0 <= header < U32 && sp.Has(a, 4 + |body| + |pad|)
    requires sp.Slice(a, 4 + |body| + |pad|) == Le32(header) + body + pad
    ensures sp.Has(a, 4 + |body|) && sp.Word32(a) == header && sp.Slice(a + 4, |body|) == body
  {
    hide Le32;
    var data := Le32(header) + body + pad;
    assert data == [] + Le32(header) + (body + pad);
    PieceEmitted(sp, a, data, [], Le32(header), body + pad);
    PieceEmitted(sp, a, data, Le32(header), body, pad);
    WordEmitted(sp, a, header);
  }

  function StringBytes(sp: Space, chars: seq<byte>): seq<byte>
    requires |chars| < U32
  {
    Le32(|chars|) + chars + Zeros(FrontPad(sp, |chars| + 1, 4) + 1)
  }

  function CreateString(sp: Space, chars: seq<byte>): Emitted
    requires ValidSpace(sp)
  {
    if |chars| > U32 - 1 then Failed else EmitFront(sp, StringBytes(sp, chars))
  }

  /** Whether the emission of a string that is not refused stays below 2^32 bytes. */
  predicate StringFits(sp: Space, chars: seq<byte>)
  {
    |chars| < U32 ==> |StringBytes(sp, chars)| < U32
  }

  lemma StringCreated(sp: Space, chars: seq<byte>)
    requires ValidSpace(sp) && StringFits(sp, chars)
    ensures var r, a := CreateString(sp, chars), AlignDown(sp.start - |chars| - 1, 4) - 4;
      (r.Emitted? <==> |chars| < U32 && a >= -U32 / 2) && (r.Emitted? ==> r.ref == a)
    ensures var r := CreateString(sp, chars);
      r.Emitted? ==> Prepended(sp, r, StringBytes(sp, chars)) && StringAt(r.sp, r.ref, chars)
  {
    hide Le32, Zeros, FrontPad;
    if |chars| >= U32 { return; }
    var pad := FrontPad(sp, |chars| + 1, 4);
    ZerosSplit(pad);
    assert StringBytes(sp, chars) == Padded(sp, |chars|, chars + [0], 4);
    SmallPowers();
    PaddedEmitted(sp, |chars|, chars + [0], 4);
    var r := CreateString(sp, chars);
    if r.Emitted? {
      hide EmitFront, Padded;
      SliceOfSlice(r.sp, r.ref + 4, chars + [0], 0, |chars|);
      SliceOfSlice(r.sp, r.ref + 4, chars + [0], |chars|, 1);
    }
  }

  lemma ZerosSplit(n: nat)
    ensures Zeros(n + 1) == [0] + Zeros(n)
  {
  }

  lemma SliceOfSlice(sp: Space, a: int, whole: seq<byte>, i: nat, n: nat)
    requires sp.Has(a, |whole|) && sp.Slice(a, |whole|) == whole && i + n <= |whole|
    ensures sp.Has(a + i, n) && sp.Slice(a + i, n) == whole[i..i + n]
  {
  }

  /** `elemSize` and the element data; the count check comes first. */
  function CreateVector(sp: Space, count: int, elemSize: nat, data: seq<byte>, align: int, maxCount: int): Emitted
    requires ValidSpace(sp) && 0 <= count < U32 && align > 0
  {
    if count > maxCount then Failed else EmitFront(sp, Padded(sp, count, data, Max(align, 4)))
  }

  /** The same for a vector. */
  predicate VectorFits(sp: Space, count: int, data: seq<byte>, align: int, maxCount: int)
    requires align > 0
  {
    0 <= count < U32 && count <= maxCount ==> |Padded(sp, count, data, Max(align, 4))| < U32
  }

  lemma VectorCreated(sp: Space, count: int, elemSize: nat, data: seq<byte>, align: int, maxCount: int)
    requires ValidSpace(sp) && ValidAlign(align) && VectorFits(sp, count, data, align, maxCount)
    requires 0 <= count < U32 && |data| == count * elemSize &&
      maxCount <= (U32 - 1) / (if elemSize == 0 then 1 else elemSize)
    ensures var r := CreateVector(sp, count, elemSize, data, align, maxCount);
      r.Emitted? ==>
        Prepended(sp, r, Padded(sp, count, data, Max(align, 4))) &&
        VectorAt(r.sp, r.ref, elemSize, align, count, data)
    ensures var r, a := CreateVector(sp, count, elemSize, data, align, maxCount),
        AlignDown(sp.start - |data|, Max(align, 4)) - 4;
      (r.Emitted? <==> count <= maxCount && a >= -U32 / 2) && (r.Emitted? ==> r.ref == a)
  {
    hide Padded, EmitFront;
    SmallPowers();
    if count > maxCount { return; }
    PaddedEmitted(sp, count, data, Max(align, 4));
    var r := CreateVector(sp, count, elemSize, data, align, maxCount);
    if r.Emitted? {
      AlignedToLess(r.ref + 4, align, Max(align, 4));
    }
  }

  /** The offsets from consecutive places starting at `at` to the referenced objects. */
  function OffsetBytes(refs: seq<int>, at: int): (b: seq<byte>)
    ensures |b| == 4 * |refs|
  {
    if refs == [] then [] else Le32((refs[0] - at) % U32) + OffsetBytes(refs[1..], at + 4)
  }

  lemma {:induction false} OffsetBytesAt(refs: seq<int>, at: int, i: nat)
    requires i < |refs|
    ensures OffsetBytes(refs, at)[4 * i..4 * i + 4] == Le32((refs[i] - (at + 4 * i)) % U32)
  {
    hide Le32;
    var head, rest := Le32((refs[0] - at) % U32), OffsetBytes(refs[1..], at + 4);
    if i > 0 {
      OffsetBytesAt(refs[1..], at + 4, i - 1);
      assert (head + rest)[4 * i..4 * i + 4] == rest[4 * (i - 1)..4 * (i - 1) + 4];
    }
  }

  /** Where the offset vector of `n` references will start. */
  function OffsetVectorBase(sp: Space, n: nat): int
  {
    sp.start - (4 + 4 * n + FrontPad(sp, 4 * n, 4))
  }

  /** The length word, then for each reference its distance from the place where it is stored. */
  function CreateOffsetVector(sp: Space, refs: seq<int>): Emitted
    requires ValidSpace(sp)
  {
    if |refs| > (U32 - 1) / 4 then Failed
    else EmitFront(sp, Padded(sp, |refs|, OffsetBytes(refs, OffsetVectorBase(sp, |refs|) + 4), 4))
  }

  /** And for a vector of offsets. */
  predicate OffsetsFit(sp: Space, refs: seq<int>)
  {
    |refs| <= (U32 - 1) / 4 ==> 4 + 4 * |refs| + FrontPad(sp, 4 * |refs|, 4) < U32
  }

  lemma OffsetVectorCreated(sp: Space, refs: seq<int>)
    requires ValidSpace(sp) && OffsetsFit(sp, refs) && forall i | 0 <= i < |refs| :: sp.start <= refs[i] < sp.End()
    ensures var r := CreateOffsetVector(sp, refs);
      r.Emitted? ==>
        OffsetsAt(r.sp, r.ref, refs) &&
        Prepended(sp, r, Padded(sp, |refs|, OffsetBytes(refs, OffsetVectorBase(sp, |refs|) + 4), 4))
    ensures var r, a := CreateOffsetVector(sp, refs), AlignDown(sp.start - 4 * |refs|, 4) - 4;
      (r.Emitted? <==> 4 * |refs| < U32 && a >= -U32 / 2) && (r.Emitted? ==> r.ref == a)
  {
    hide EmitFront, OffsetBytes, Padded, PaddedAt, OffsetsAt;
    if |refs| > (U32 - 1) / 4 { return; }
    var base := OffsetVectorBase(sp, |refs|);
    var body := OffsetBytes(refs, base + 4);
    SmallPowers();
    PaddedLength(sp, |refs|, body, 4);
    PaddedEmitted(sp, |refs|, body, 4);
    var r := CreateOffsetVector(sp, refs);
    if r.Emitted? {
      OffsetsFromBody(r.sp, r.ref, refs);
    }
  }

  lemma PaddedLength(sp: Space, header: int, body: seq<byte>, align: int)
    requires 0 <= header < U32 && align > 0
    ensures |Padded(sp, header, body, align)| == 4 + |body| + FrontPad(sp, |body|, align)
  {
  }

  lemma OffsetsFromBody(sp: Space, a: int, refs: seq<int>)
    requires |refs| < U32 / 4 && PaddedAt(sp, a, |refs|, OffsetBytes(refs, a + 4), 4)
    requires forall i | 0 <= i < |refs| :: a + 4 + 4 * |refs| <= refs[i] < a + U32
    ensures OffsetsAt(sp, a, refs)
  {
    hide OffsetAt, OffsetBytes;
    forall i | 0 <= i < |refs| ensures OffsetAt(sp, a + 4 + 4 * i, refs[i]) {
      OffsetStored(sp, a + 4, refs, i);
    }
  }

  lemma OffsetStored(sp: Space, at: int, refs: seq<int>, i: nat)
    requires sp.Has(at, 4 * |refs|) && sp.Slice(at, 4 * |refs|) == OffsetBytes(refs, at) && at % 4 == 0
    requires i < |refs| && 0 < refs[i] - (at + 4 * i) < U32
    ensures OffsetAt(sp, at + 4 * i, refs[i])
  {
    hide Le32, OffsetBytes;
    OffsetBytesAt(refs, at, i);
    SliceOfSlice(sp, at, OffsetBytes(refs, at), 4 * i, 4);
    WordEmitted(sp, at + 4 * i, (refs[i] - (at + 4 * i)) % U32);
  }

  // -------------------------------------------------------------------- buffer header

  /** The root's offset, the identifier if there is one, and padding that aligns the buffer's start. */
  function HeaderBytes(sp: Space, root: int, identifier: int, align: int): seq<byte>
    requires 0 <= identifier < U32 && align > 0
  {
    var id := if identifier != 0 then Le32(identifier) else [];
    var pad := FrontPad(sp, 4 + |id|, align);
    var base := sp.start - (4 + |id| + pad);
    Le32((root - base) % U32) + id + Zeros(pad)
  }

  /** The space begins, on a multiple of `align`, with a word that leads to `root`, and the identifier. */
  ghost predicate HeaderAt(sp: Space, root: int, identifier: int, align: int)
    requires align > 0
  {
    && sp.start % align == 0 && OffsetAt(sp, sp.start, root)
    && (identifier != 0 ==> sp.Has(sp.start, 8) && sp.Word32(sp.start + 4) == identifier)
  }

  lemma HeaderEmitted(sp: Space, root: int, identifier: int, align: int)
    requires ValidSpace(sp) && 0 <= identifier < U32 && ValidAlign(align) && 4 <= align && sp.start <= root < sp.End()
    ensures var r := EmitFront(sp, HeaderBytes(sp, root, identifier, align));
      r.Emitted? ==>
        Prepended(sp, r, HeaderBytes(sp, root, identifier, align)) &&
        HeaderAt(r.sp, root, identifier, align)
    ensures var r, a := EmitFront(sp, HeaderBytes(sp, root, identifier, align)),
        AlignDown(sp.start - (if identifier != 0 then 8 else 4), align);
      (r.Emitted? <==> a >= -U32 / 2) && (r.Emitted? ==> r.ref == a)
  {
    hide Le32, Zeros, IsPow2, OffsetAt;
    assert FrontPad(sp, if identifier != 0 then 8 else 4, align)
      == (sp.start - (if identifier != 0 then 8 else 4)) % align;
    hide FrontPad;
    var id := if identifier != 0 then Le32(identifier) else [];
    var pad := FrontPad(sp, 4 + |id|, align);
    var base := sp.start - (4 + |id| + pad);
    var data := HeaderBytes(sp, root, identifier, align);
    EmitFrontResult(sp, data);
    var r := EmitFront(sp, data);
    if r.Emitted? {
      hide EmitFront, Extends, HeaderBytes;
      FrontPadAligns(sp, 4 + |id|, align);
      StartAligned(r.ref, align);
      HeaderPieces(r.sp, (root - base) % U32, identifier, Zeros(pad));
      assert OffsetAt(r.sp, r.ref, root) by { HeaderLeads(r.sp, root); }
    }
  }

  lemma HeaderLeads(sp: Space, root: int)
    requires ValidSpace(sp) && sp.Has(sp.start, 4) && sp.start % 4 == 0 && sp.start < root < U32 / 2
    requires sp.Word32(sp.start) == (root - sp.start) % U32
    ensures OffsetAt(sp, sp.start, root)
  {
  }

  lemma HeaderPieces(sp: Space, word: int, identifier: int, pad: seq<byte>)
    requires 0 <= word < U32 && 0 <= identifier < U32
    requires var data := Le32(word) + (if identifier != 0 then Le32(identifier) else []) + pad;
      sp.Has(sp.start, |data|) && sp.Slice(sp.start, |data|) == data
    ensures sp.Has(sp.start, 4) && sp.Word32(sp.start) == word
    ensures identifier != 0 ==> sp.Has(sp.start, 8) && sp.Word32(sp.start + 4) == identifier
  {
    hide Le32;
    var id := if identifier != 0 then Le32(identifier) else [];
    var data := Le32(word) + id + pad;
    assert data == [] + Le32(word) + (id + pad);
    PieceEmitted(sp, sp.start, data, [], Le32(word), id + pad);
    WordEmitted(sp, sp.start, word);
    if identifier != 0 {
      PieceEmitted(sp, sp.start, data, Le32(word), id, pad);
      WordEmitted(sp, sp.start + 4, identifier);
    }
  }

  lemma StartAligned(a: int, align: int)
    requires ValidAlign(align) && 4 <= align && a % align == 0
    ensures a % 4 == 0
  {
    SmallPowers();
    AlignedToLess(a, 4, align);
  }

  /** The end is padded by its own remainder, which completes a multiple of the alignment exactly
      when the end is a multiple of half the alignment. */
  lemma EndPadding(end: int, align: int)
    requires IsPow2(align) && align >= 2
    ensures (end + end % align) % align == 0 <==> end % (align / 2) == 0
  {
    var h, q, r := align / 2, end / align, end % align;
    assert align == 2 * h && end == align * q + r;
    assert end == 2 * h * q + r by { MulAssociates(2, h, q); }
    if r == 0 { PadNone(end, h, q); } else if r == h { PadHalf(end, h, q); } else { PadOther(end, h, q, r); }
  }

  lemma PadNone(end: int, h: int, q: int)
    requires h > 0 && end == 2 * h * q
    ensures end % (2 * h) == 0 && end % h == 0
  {
    MultipleOf(end, 2 * h, q);
    MultipleOf(end, h, 2 * q) by { MulAssociates(h, 2, q); }
  }

  lemma PadHalf(end: int, h: int, q: int)
    requires h > 0 && end == 2 * h * q + h
    ensures (end + h) % (2 * h) == 0 && end % h == 0
  {
    MultipleOf(end + h, 2 * h, q + 1);
    MultipleOf(end, h, 2 * q + 1) by { MulAssociates(h, 2, q); }
  }

  lemma PadOther(end: int, h: int, q: int, r: int)
    requires h > 0 && end == 2 * h * q + r && 0 < r < 2 * h && r != h
    ensures (end + r) % (2 * h) != 0 && end % h != 0
  {
    NotMultiple(end + r, 2 * h, q, 2 * r);
    NotHalf(end, h, q, r);
  }

  lemma NotMultiple(x: int, a: int, q: int, d: int)
    requires a > 0 && x == a * q + d && 0 < d < 2 * a && d != a
    ensures x % a != 0
  {
    if x % a == 0 {
      var k := x / a - q;
      assert a * k == a * (x / a) - a * q;
      OneOrTwo(a, k);
    }
  }

  lemma OneOrTwo(a: int, k: int)
    requires a > 0
    ensures a * k <= 0 || a * k == a || a * k >= 2 * a
  {
  }

  lemma NotHalf(end: int, h: int, q: int, r: int)
    requires h > 0 && end == 2 * h * q + r && 0 < r < 2 * h && r != h
    ensures end % h != 0
  {
    assert end == h * (2 * q) + r by { MulAssociates(h, 2, q); }
    NotMultiple(end, h, 2 * q, r);
  }
}
