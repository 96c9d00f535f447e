/** The builder's stacks: the data of open objects, the vtable entries of open tables and their
    patch logs. Each is one growing buffer in which frames lie above each other; a frame saves
    where its parent was. */
module FlatStacks {
  import opened FlatBytes

  function AlignUp(x: nat, align: int): (y: nat)
    requires align > 0
    ensures y % align == 0 && x <= y < x + align
  {
    PadAligns(x + align - 1, align);
    x + align - 1 - (x + align - 1) % align
  }

  // -------------------------------------------------------------------- allocation

  /** The default allocator grows a buffer by doubling from a base size. */
  predicate AllocSize(len: nat, base: nat)
    requires base > 0
    decreases len
  {
    len == base || (len > base && len % 2 == 0 && AllocSize(len / 2, base))
  }

  lemma {:induction false} AllocSizeGap(n: nat, len: nat, base: nat)
    requires base > 0 && AllocSize(n, base) && AllocSize(len, base) && len / 2 < n
    ensures len <= n
    decreases n
  {
    if n != base && len != base { AllocSizeGap(n / 2, len / 2, base); }
  }

  lemma {:induction false} AllocSizeAligned(n: nat, base: nat)
    requires base > 0 && base % 8 == 0 && AllocSize(n, base)
    ensures n % 8 == 0 && n >= base
    decreases n
  {
    if n != base {
      AllocSizeAligned(n / 2, base);
      MultipleOf(n, 8, 2 * (n / 2 / 8));
    }
  }

  method Rounded(request: nat, base: nat) returns (n: nat)
    requires base > 0
    ensures AllocSize(n, base) && n >= request
  {
    n := base;
    while n < request
      invariant AllocSize(n, base)
    {
      n := n * 2;
    }
  }

  // -------------------------------------------------------------------- data stack

  const DATA_LIMIT: nat := U32 - 4
  const TABLE_LIMIT: nat := U16 - 4
  const DS_BASE: nat := 256

  /** Where a frame's parent was, and the frame's own type limit. */
  datatype Saved = Saved(first: nat, offset: nat, typeLimit: nat)

  /** The frames' contents in order, each at its place, with zeros in the gaps. */
  ghost function Flat<T>(firsts: seq<nat>, contents: seq<seq<T>>, zero: T): (f: seq<T>)
    requires |firsts| == |contents|
  {
    if contents == [] then [] else
    var n := |contents| - 1;
    var below := Flat(firsts[..n], contents[..n], zero);
    below + Fill(firsts[n] - |below|, zero) + contents[n]
  }

  function Fill<T>(n: int, zero: T): (z: seq<T>)
    ensures |z| == if n < 0 then 0 else n
    ensures forall i | 0 <= i < |z| :: z[i] == zero
  {
    seq(if n < 0 then 0 else n, _ => zero)
  }

  /** Every frame starts at or above the end of the one below it. */
  ghost predicate Fits<T>(firsts: seq<nat>, contents: seq<seq<T>>, zero: T)
    requires |firsts| == |contents|
  {
    contents == [] ||
    (var n := |contents| - 1;
     Fits(firsts[..n], contents[..n], zero) && |Flat(firsts[..n], contents[..n], zero)| <= firsts[n])
  }

  /** The buffer holds the frames and nothing but zeros above them. */
  ghost predicate Stacked<T>(mem: seq<T>, firsts: seq<nat>, contents: seq<seq<T>>, zero: T)
  {
    && |firsts| == |contents| && Fits(firsts, contents, zero)
    && var f := Flat(firsts, contents, zero); |f| <= |mem| && mem == f + Fill(|mem| - |f|, zero)
  }

  function Top<T>(contents: seq<T>): T
    requires contents != []
  {
    contents[|contents| - 1]
  }

  function WithTop<T>(contents: seq<T>, top: T): (c: seq<T>)
    requires contents != []
    ensures |c| == |contents| && Top(c) == top && c[..|c| - 1] == contents[..|contents| - 1]
  {
    contents[..|contents| - 1] + [top]
  }

  lemma TopPlace<T>(mem: seq<T>, firsts: seq<nat>, contents: seq<seq<T>>, zero: T)
    requires Stacked(mem, firsts, contents, zero) && contents != []
    ensures |Flat(firsts, contents, zero)| == firsts[|firsts| - 1] + |Top(contents)| <= |mem|
    ensures mem[firsts[|firsts| - 1]..firsts[|firsts| - 1] + |Top(contents)|] == Top(contents)
    ensures forall i | firsts[|firsts| - 1] + |Top(contents)| <= i < |mem| :: mem[i] == zero
  {
  }

  lemma StackedGrows<T>(mem: seq<T>, firsts: seq<nat>, contents: seq<seq<T>>, zero: T, n: nat)
    requires Stacked(mem, firsts, contents, zero)
    ensures Stacked(mem + Fill(n, zero), firsts, contents, zero)
  {
  }

  lemma StackedEnter<T>(mem: seq<T>, firsts: seq<nat>, contents: seq<seq<T>>, zero: T, first: nat)
    requires Stacked(mem, firsts, contents, zero) && |Flat(firsts, contents, zero)| <= first <= |mem|
    ensures Stacked(mem, firsts + [first], contents + [[]], zero)
  {
  }

  /** The frame on top now holds `top`; everything below is untouched. */
  lemma StackedReplace<T>(mem: seq<T>, firsts: seq<nat>, contents: seq<seq<T>>, zero: T, top: seq<T>, mem': seq<T>)
    requires Stacked(mem, firsts, contents, zero) && contents != []
    requires var first := firsts[|firsts| - 1];
      |mem'| == |mem| && first + |top| <= |mem| && mem'[..first] == mem[..first] &&
        mem'[first..] == top + Fill(|mem| - first - |top|, zero)
    ensures Stacked(mem', firsts, WithTop(contents, top), zero)
  {
    var n := |contents| - 1;
    var first := firsts[n];
    var below := Flat(firsts[..n], contents[..n], zero);
    var base := below + Fill(first - |below|, zero);
    assert Flat(firsts, contents, zero) == base + contents[n];
    assert mem[..first] == base;
    var cs := WithTop(contents, top);
    assert cs[..n] == contents[..n];
    assert Flat(firsts, cs, zero) == base + top;
    assert mem' == mem'[..first] + mem'[first..];
  }

  lemma StackedExit<T>(mem: seq<T>, firsts: seq<nat>, contents: seq<seq<T>>, zero: T)
    requires Stacked(mem, firsts, contents, zero) && contents != [] && Top(contents) == []
    ensures Stacked(mem, firsts[..|firsts| - 1], contents[..|contents| - 1], zero)
  {
  }

  // -------------------------------------------------------------------- data stack

  /** Each frame has saved where its parent started and how much it held. */
  ghost predicate SavedOk(saved: seq<Saved>, firsts: seq<nat>, contents: seq<seq<byte>>)
    requires |firsts| == |contents|
  {
    && |saved| == |contents|
    && forall k | 0 <= k < |saved| ::
         saved[k].first == (if k == 0 then 0 else firsts[k - 1]) &&
           saved[k].offset == (if k == 0 then 0 else |contents[k - 1]|)
  }

  ghost predicate DataOk(mem: seq<byte>, first: nat, offset: nat, limit: nat, saved: seq<Saved>,
      firsts: seq<nat>, contents: seq<seq<byte>>)
  {
    && |firsts| == |contents| && Stacked(mem, firsts, contents, 0 as byte) && SavedOk(saved, firsts, contents)
    && (mem == [] || AllocSize(|mem|, DS_BASE)) && first + offset <= |mem| && limit <= |mem| - first
    && first == (if firsts == [] then 0 else firsts[|firsts| - 1])
    && offset == (if contents == [] then 0 else |Top(contents)|)
  }

  lemma DataEnter(mem: seq<byte>, first: nat, offset: nat, limit: nat, saved: seq<Saved>, firsts: seq<nat>,
      contents: seq<seq<byte>>, typeLimit: nat)
    requires DataOk(mem, first, offset, limit, saved, firsts, contents)
    ensures var at := AlignUp(first + offset, 8);
      at <= |mem| && DataOk(mem, at, 0, 0, saved + [Saved(first, offset, typeLimit)], firsts + [at], contents + [[]])
  {
    hide Stacked;
    var at := AlignUp(first + offset, 8);
    if mem != [] { AllocSizeAligned(|mem|, DS_BASE); }
    BoundaryBelow(first + offset, |mem|);
    FlatSpan(mem, firsts, contents, 0 as byte);
    StackedEnter(mem, firsts, contents, 0 as byte, at);
  }

  lemma BoundaryBelow(x: nat, m: nat)
    requires x <= m && m % 8 == 0
    ensures AlignUp(x, 8) <= m
  {
  }

  /** The bytes from the frame's start on are its contents, then zeros. */
  lemma FrameBytes(mem: seq<byte>, first: nat, offset: nat, limit: nat, saved: seq<Saved>, firsts: seq<nat>,
      contents: seq<seq<byte>>)
    requires DataOk(mem, first, offset, limit, saved, firsts, contents) && contents != []
    ensures mem[first..] == Top(contents) + Fill(|mem| - first - offset, 0)
  {
  }

  /** Zeros above the contents can be counted among them. */
  lemma FrameExtends(rest: seq<byte>, top: seq<byte>, n: nat)
    requires |top| + n <= |rest| && rest == top + Fill(|rest| - |top|, 0)
    ensures rest == top + Fill(n, 0) + Fill(|rest| - |top| - n, 0)
  {
  }

  lemma DataReplace(mem: seq<byte>, first: nat, offset: nat, limit: nat, saved: seq<Saved>, firsts: seq<nat>,
      contents: seq<seq<byte>>, top: seq<byte>, mem': seq<byte>)
    requires DataOk(mem, first, offset, limit, saved, firsts, contents) && contents != []
    requires |mem'| == |mem| && first + |top| <= |mem| && mem'[..first] == mem[..first]
    requires mem'[first..] == top + Fill(|mem| - first - |top|, 0)
    ensures DataOk(mem', first, |top|, limit, saved, firsts, WithTop(contents, top))
  {
    hide Stacked;
    StackedReplace(mem, firsts, contents, 0 as byte, top, mem');
  }

  lemma DataExit(mem: seq<byte>, first: nat, offset: nat, limit: nat, saved: seq<Saved>, firsts: seq<nat>,
      contents: seq<seq<byte>>, limit': nat)
    requires DataOk(mem, first, offset, limit, saved, firsts, contents) && contents != [] && Top(contents) == []
    requires var n := |saved| - 1; limit' <= |mem| - saved[n].first
    ensures var n := |saved| - 1;
      DataOk(mem, saved[n].first, saved[n].offset, limit', saved[..n], firsts[..n], contents[..n])
  {
    hide Stacked;
    var n := |saved| - 1;
    StackedExit(mem, firsts, contents, 0 as byte);
    StackedSpan(mem, firsts[..n], contents[..n], 0 as byte);
  }

  lemma FlatSpan<T>(mem: seq<T>, firsts: seq<nat>, contents: seq<seq<T>>, zero: T)
    requires Stacked(mem, firsts, contents, zero)
    ensures |firsts| == |contents| && |Flat(firsts, contents, zero)| <= |mem|
    ensures |Flat(firsts, contents, zero)| == if contents == [] then 0 else firsts[|firsts| - 1] + |Top(contents)|
  {
  }

  lemma StackedSpan<T>(mem: seq<T>, firsts: seq<nat>, contents: seq<seq<T>>, zero: T)
    requires Stacked(mem, firsts, contents, zero)
    ensures contents != [] ==> firsts[|firsts| - 1] + |Top(contents)| <= |mem|
  {
  }

  class DataStack {
    var mem: seq<byte>
    var first: nat
    var offset: nat
    var limit: nat
    var saved: seq<Saved>

    /** Where each open frame starts and what it holds, the innermost last. */
    ghost var firsts: seq<nat>
    ghost var contents: seq<seq<byte>>

    ghost predicate Valid()
      reads this
    {
      DataOk(mem, first, offset, limit, saved, firsts, contents)
    }

    constructor ()
      ensures Valid() && contents == []
    {
      mem, first, offset, limit, saved := [], 0, 0, 0, [];
      firsts, contents := [], [];
    }

    /** Takes the limit from the buffer's size and the frame's type. */
    method Refresh(typeLimit: nat)
      requires Valid()
      modifies this`limit, this`saved
      ensures Valid()
      ensures limit == if |mem| - first > typeLimit then typeLimit else |mem| - first
    {
      limit := |mem| - first;
      if limit > typeLimit { limit := typeLimit; }
      if saved != [] {
        saved := saved[|saved| - 1 := saved[|saved| - 1].(typeLimit := typeLimit)];
      }
    }

    /** Makes room for `need` bytes above the frame's start; new memory is zero. */
    method Reserve(need: nat, typeLimit: nat)
      requires Valid()
      modifies this`mem, this`limit, this`saved
      ensures Valid() && first + need <= |mem|
      ensures limit == if |mem| - first > typeLimit then typeLimit else |mem| - first
    {
      var request := first + need;
      var n := Rounded(request, DS_BASE);
      if !(request <= |mem| && |mem| / 2 >= n) {
        if mem != [] { AllocSizeGap(n, |mem|, DS_BASE); }
        StackedGrows(mem, firsts, contents, 0 as byte, n - |mem|);
        mem := mem + Fill(n - |mem|, 0);
      }
      Refresh(typeLimit);
    }

    /** Opens a frame at the next 8-byte boundary. */
    method Enter(typeLimit: nat)
      requires Valid()
      modifies this
      ensures Valid() && contents == old(contents) + [[]]
    {
      hide DataOk;
      DataEnter(mem, first, offset, limit, saved, firsts, contents, DATA_LIMIT);
      var at := AlignUp(first + offset, 8);
      saved := saved + [Saved(first, offset, DATA_LIMIT)];
      first, offset, limit := at, 0, 0;
      firsts, contents := firsts + [at], contents + [[]];
      Refresh(typeLimit);
    }

    /** Extends the frame by `size` zero bytes; one byte above stays free for a terminator. */
    method Push(size: nat) returns (at: nat)
      requires Valid() && contents != []
      modifies this
      ensures Valid() && contents == WithTop(old(contents), Top(old(contents)) + Fill(size, 0)) &&
        at == |Top(old(contents))|
      ensures offset == at + size && first == old(first)
    {
      hide DataOk;
      at := offset;
      FrameHolds();
      if offset + size >= limit { Reserve(offset + size + 1, DATA_LIMIT); }
      FrameHolds();
      FrameBytes(mem, first, offset, limit, saved, firsts, contents);
      ghost var top := Top(contents) + Fill(size, 0);
      FrameExtends(mem[first..], Top(contents), size);
      DataReplace(mem, first, offset, limit, saved, firsts, contents, top, mem);
      offset := offset + size;
      contents := WithTop(contents, top);
    }

    lemma FrameHolds()
      requires Valid() && contents != []
      ensures offset == |Top(contents)| && first + offset <= |mem| && limit <= |mem| - first
    {
    }

    /** Copies `data` over the frame's bytes from `at` on. */
    method Write(at: nat, data: seq<byte>)
      requires Valid() && contents != [] && at + |data| <= |Top(contents)|
      modifies this`mem, this`contents
      ensures Valid()
      ensures contents == WithTop(old(contents), Top(old(contents))[..at] + data + Top(old(contents))[at + |data|..])
    {
      hide DataOk;
      FrameHolds();
      FrameBytes(mem, first, offset, limit, saved, firsts, contents);
      ghost var was, old', z := mem, Top(contents), Fill(|mem| - first - offset, 0 as byte);
      ghost var top := old'[..at] + data + old'[at + |data|..];
      mem := mem[..first + at] + data + mem[first + at + |data|..];
      assert mem[..first] == was[..first];
      assert was[first..first + at] == old'[..at] by { assert was[first..][..at] == (old' + z)[..at]; }
      assert was[first + at + |data|..] == old'[at + |data|..] + z by {
        assert was[first..][at + |data|..] == (old' + z)[at + |data|..];
      }
      assert mem[first..] == was[first..first + at] + data + was[first + at + |data|..];
      DataReplace(was, first, offset, limit, saved, firsts, contents, top, mem);
      contents := WithTop(contents, top);
    }

    method PushCopy(data: seq<byte>) returns (at: nat)
      requires Valid() && contents != []
      modifies this
      ensures Valid() && contents == WithTop(old(contents), Top(old(contents)) + data) && at == |Top(old(contents))|
    {
      hide DataOk;
      at := Push(|data|);
      Write(at, data);
      assert Top(contents) == Top(old(contents)) + data;
    }

    /** Drops the last `size` bytes and clears them. */
    method Unpush(size: nat)
      requires Valid() && contents != [] && size <= |Top(contents)|
      modifies this`offset, this`mem, this`contents
      ensures Valid() && contents == WithTop(old(contents), Top(old(contents))[..|Top(old(contents))| - size])
    {
      hide DataOk;
      FrameHolds();
      FrameBytes(mem, first, offset, limit, saved, firsts, contents);
      ghost var was, old' := mem, Top(contents);
      ghost var top := old'[..|old'| - size];
      var end := first + offset;
      mem := mem[..end - size] + Fill(size, 0) + mem[end..];
      assert mem[..first] == was[..first];
      assert was[end..] == Fill(|was| - end, 0) by { assert was[first..][offset..] == was[end..]; }
      assert was[first..end - size] == top by { assert was[first..][..offset - size] == top; }
      assert mem[first..] == was[first..end - size] + (Fill(size, 0) + was[end..]);
      assert mem[first..] == top + Fill(|mem| - first - |top|, 0);
      DataReplace(was, first, offset, limit, saved, firsts, contents, top, mem);
      offset := offset - size;
      contents := WithTop(contents, top);
    }

    /** Adds a table field, zero padded to its alignment. */
    method PushField(data: seq<byte>, align: int) returns (at: nat)
      requires Valid() && contents != [] && align > 0
      modifies this
      ensures at == AlignUp(|Top(old(contents))|, align)
      ensures Valid() && contents == WithTop(old(contents),
        Top(old(contents)) + Fill(at - |Top(old(contents))|, 0) + data)
    {
      hide DataOk;
      at := PushAligned(|data|, align, |data| + 1);
      Write(at, data);
      assert Top(contents) == Top(old(contents)) + Fill(at - |Top(old(contents))|, 0) + data;
    }

    /** Adds an offset field; no byte above needs to be free. */
    method PushOffsetField(word: seq<byte>) returns (at: nat)
      requires Valid() && contents != [] && |word| == 4
      modifies this
      ensures at == AlignUp(|Top(old(contents))|, 4)
      ensures Valid() && contents == WithTop(old(contents),
        Top(old(contents)) + Fill(at - |Top(old(contents))|, 0) + word)
    {
      hide DataOk;
      at := PushAligned(4, 4, 4);
      Write(at, word);
      assert Top(contents) == Top(old(contents)) + Fill(at - |Top(old(contents))|, 0) + word;
    }

    /** Extends the frame with zeros up to `align` and `size` beyond, reserving `room` from there. */
    method PushAligned(size: nat, align: int, room: nat) returns (at: nat)
      requires Valid() && contents != [] && align > 0 && size <= room <= size + 1
      modifies this
      ensures at == AlignUp(|Top(old(contents))|, align)
      ensures Valid() && contents == WithTop(old(contents),
        Top(old(contents)) + Fill(at + size - |Top(old(contents))|, 0))
    {
      hide DataOk;
      FrameHolds();
      at := AlignUp(offset, align);
      if at + room > limit { Reserve(at + room, TABLE_LIMIT); }
      FrameHolds();
      FrameBytes(mem, first, offset, limit, saved, firsts, contents);
      ghost var top := Top(contents) + Fill(at + size - offset, 0);
      FrameExtends(mem[first..], Top(contents), at + size - offset);
      DataReplace(mem, first, offset, limit, saved, firsts, contents, top, mem);
      offset := at + size;
      contents := WithTop(contents, top);
    }

    /** Clears the frame and returns to its parent, whose contents are as they were. */
    method Exit()
      requires Valid() && contents != []
      modifies this
      ensures Valid() && contents == old(contents)[..|old(contents)| - 1]
    {
      hide DataOk;
      Clear();
      ExitLimits();
      var n := |saved| - 1;
      var s := saved[n];
      ghost var lim := if |mem| - s.first > s.typeLimit then s.typeLimit else |mem| - s.first;
      DataExit(mem, first, offset, limit, saved, firsts, contents, lim);
      first, offset := s.first, s.offset;
      limit := |mem| - first;
      if limit > s.typeLimit { limit := s.typeLimit; }
      saved, firsts, contents := saved[..n], firsts[..n], contents[..n];
    }

    lemma ExitLimits()
      requires Valid() && contents != []
      ensures |saved| == |contents| == |firsts| && saved[|saved| - 1].first <= |mem|
    {
    }

    method Clear()
      requires Valid() && contents != []
      modifies this`mem, this`offset, this`contents
      ensures Valid() && contents == WithTop(old(contents), [])
    {
      FrameHolds();
      Unpush(offset);
      assert Top(contents) == [];
    }
  }

  // ------------------------------------------------------- vtable stack and patch log

  const VS_BASE: nat := 16

  /** Where a table's parent was on the vtable stack and in the patch log. */
  datatype SavedTable = SavedTable(vs: nat, idEnd: nat, plEnd: nat)

  /** The entries with entry `id` set; entries skipped over are zero. */
  function SetEntry(entries: seq<int>, id: nat, v: int): seq<int>
  {
    if id < |entries| then entries[id := v] else entries + Fill(id - |entries|, 0) + [v]
  }

  /** Two header words, zero until the table ends, then the entries. */
  ghost function Region(entries: seq<int>): seq<int>
  {
    [0, 0] + entries
  }

  ghost function Regions(tables: seq<seq<int>>): (r: seq<seq<int>>)
    ensures |r| == |tables| && forall k | 0 <= k < |r| :: r[k] == Region(tables[k])
  {
    seq(|tables|, k requires 0 <= k < |tables| => Region(tables[k]))
  }

  /** The `k`-th table's log is its stretch of the shared log. */
  ghost predicate LogOk(log: seq<int>, saved: seq<SavedTable>, logs: seq<seq<int>>, k: nat)
    requires k < |logs| == |saved|
  {
    var end := if k + 1 < |logs| then saved[k + 1].plEnd else |log|;
    saved[k].plEnd <= end <= |log| && logs[k] == log[saved[k].plEnd..end]
  }

  ghost predicate LogsOk(log: seq<int>, saved: seq<SavedTable>, logs: seq<seq<int>>)
  {
    |saved| == |logs| && forall k | 0 <= k < |logs| :: LogOk(log, saved, logs, k)
  }

  ghost predicate EntriesOk(mem: seq<int>, vs: nat, idEnd: nat, saved: seq<SavedTable>, firsts: seq<nat>,
      tables: seq<seq<int>>, counts: seq<nat>)
  {
    && |firsts| == |tables| == |counts| == |saved| && Stacked(mem, firsts, Regions(tables), 0)
    && (mem == [] || AllocSize(|mem|, VS_BASE))
    && vs == (if tables == [] then 0 else firsts[|firsts| - 1] + 2) &&
      idEnd == (if tables == [] then 0 else |Top(tables)|)
    && (forall k | 0 <= k < |counts| :: |tables[k]| <= counts[k] && firsts[k] + 2 + counts[k] <= |mem|)
    && forall k | 0 <= k < |saved| ::
         saved[k].vs == (if k == 0 then 0 else firsts[k - 1] + 2) &&
           saved[k].idEnd == (if k == 0 then 0 else |tables[k - 1]|)
  }

  lemma EntriesGrow(mem: seq<int>, vs: nat, idEnd: nat, saved: seq<SavedTable>, firsts: seq<nat>, tables: seq<seq<int>>,
      counts: seq<nat>, n: nat)
    requires EntriesOk(mem, vs, idEnd, saved, firsts, tables, counts) && n >= |mem| && AllocSize(n, VS_BASE)
    ensures EntriesOk(mem + Fill(n - |mem|, 0), vs, idEnd, saved, firsts, tables, counts)
  {
    hide Stacked, Regions;
    StackedGrows(mem, firsts, Regions(tables), 0, n - |mem|);
  }

  lemma EntriesStart(mem: seq<int>, vs: nat, idEnd: nat, saved: seq<SavedTable>, firsts: seq<nat>,
      tables: seq<seq<int>>, counts: seq<nat>, count: nat, plEnd: nat)
    requires EntriesOk(mem, vs, idEnd, saved, firsts, tables, counts) && vs + idEnd + count + 2 <= |mem|
    ensures var used := vs + idEnd;
      EntriesOk(mem, used + 2, 0, saved + [SavedTable(vs, idEnd, plEnd)], firsts + [used], tables + [[]],
        counts + [count])
  {
    hide Stacked, Regions;
    var used := vs + idEnd;
    RegionSpan(mem, vs, idEnd, saved, firsts, tables, counts);
    StackedEnter(mem, firsts, Regions(tables), 0, used);
    RegionOpened(mem, firsts, tables, used);
  }

  lemma RegionSpan(mem: seq<int>, vs: nat, idEnd: nat, saved: seq<SavedTable>, firsts: seq<nat>, tables: seq<seq<int>>,
      counts: seq<nat>)
    requires EntriesOk(mem, vs, idEnd, saved, firsts, tables, counts)
    ensures |Flat(firsts, Regions(tables), 0)| == vs + idEnd <= |mem|
  {
  }

  lemma RegionOpened(mem: seq<int>, firsts: seq<nat>, tables: seq<seq<int>>, used: nat)
    requires |firsts| == |tables| && Stacked(mem, firsts + [used], Regions(tables) + [[]], 0) && used + 2 <= |mem|
    ensures Stacked(mem, firsts + [used], Regions(tables + [[]]), 0)
  {
    var fs, cs := firsts + [used], Regions(tables) + [[]];
    TopPlace(mem, fs, cs, 0);
    assert mem[used..] == Region([]) + Fill(|mem| - used - 2, 0);
    StackedReplace(mem, fs, cs, 0, Region([]), mem);
    assert WithTop(cs, Region([])) == Regions(tables + [[]]);
  }

  /** The innermost region changes to `entries`, within its reserved count. */
  lemma EntriesReplace(mem: seq<int>, vs: nat, idEnd: nat, saved: seq<SavedTable>, firsts: seq<nat>,
      tables: seq<seq<int>>, counts: seq<nat>, entries: seq<int>, mem': seq<int>)
    requires EntriesOk(mem, vs, idEnd, saved, firsts, tables, counts) && tables != [] && |entries| <= Top(counts)
    requires |mem'| == |mem| && mem'[..vs - 2] == mem[..vs - 2] &&
      mem'[vs - 2..] == Region(entries) + Fill(|mem| - vs - |entries|, 0)
    ensures EntriesOk(mem', vs, |entries|, saved, firsts, WithTop(tables, entries), counts)
  {
    hide Stacked, Regions, Region;
    assert |Region(entries)| == |entries| + 2 by { RegionLength(entries); }
    StackedReplace(mem, firsts, Regions(tables), 0, Region(entries), mem');
    RegionsTop(tables, entries);
  }

  lemma RegionLength(entries: seq<int>)
    ensures |Region(entries)| == |entries| + 2
  {
  }

  lemma RegionsTop(tables: seq<seq<int>>, entries: seq<int>)
    requires tables != []
    ensures WithTop(Regions(tables), Region(entries)) == Regions(WithTop(tables, entries))
  {
  }

  lemma RegionBytes(mem: seq<int>, vs: nat, idEnd: nat, saved: seq<SavedTable>, firsts: seq<nat>, tables: seq<seq<int>>,
      counts: seq<nat>)
    requires EntriesOk(mem, vs, idEnd, saved, firsts, tables, counts) && tables != []
    ensures 2 <= vs && vs + idEnd <= |mem| && mem[vs - 2..] == Region(Top(tables)) + Fill(|mem| - vs - idEnd, 0)
    ensures idEnd == |Top(tables)| <= Top(counts) && vs + Top(counts) <= |mem| &&
      |firsts| == |tables| == |counts| == |saved|
  {
  }

  /** The header goes before the entries. */
  lemma HeaderFilled(was: seq<int>, vs: nat, top: seq<int>, size: int, tableSize: int)
    requires 2 <= vs && vs + |top| <= |was| && was[vs - 2..] == Region(top) + Fill(|was| - vs - |top|, 0)
    ensures was[vs - 2 := size][vs - 1 := tableSize][vs - 2..vs + |top|] == [size, tableSize] + top
  {
    forall i | vs <= i < vs + |top| ensures was[i] == top[i - vs] { assert was[i] == was[vs - 2..][i - vs + 2]; }
  }

  /** Clearing it leaves an empty region and zeros. */
  lemma RegionCleared(was: seq<int>, vs: nat, top: seq<int>, size: int, tableSize: int)
    requires 2 <= vs && vs + |top| <= |was| && was[vs - 2..] == Region(top) + Fill(|was| - vs - |top|, 0)
    ensures var filled := was[vs - 2 := size][vs - 1 := tableSize];
      var mem := filled[..vs - 2] + Fill(|top| + 2, 0) + filled[vs + |top|..];
      |mem| == |was| && mem[..vs - 2] == was[..vs - 2] && mem[vs - 2..] == Region([]) + Fill(|mem| - vs, 0)
  {
  }

  /** Leaving a cleared region. */
  lemma EntriesEnd(mem: seq<int>, vs: nat, idEnd: nat, saved: seq<SavedTable>, firsts: seq<nat>, tables: seq<seq<int>>,
      counts: seq<nat>)
    requires EntriesOk(mem, vs, idEnd, saved, firsts, tables, counts) && tables != [] && Top(tables) == []
    ensures var n := |saved| - 1;
      EntriesOk(mem, saved[n].vs, saved[n].idEnd, saved[..n], firsts[..n], tables[..n], counts[..n])
  {
    hide Stacked;
    var n := |saved| - 1;
    RegionBytes(mem, vs, idEnd, saved, firsts, tables, counts);
    StackedReplace(mem, firsts, Regions(tables), 0, [], mem) by { assert mem[vs - 2..] == Fill(|mem| - vs + 2, 0); }
    StackedExit(mem, firsts, WithTop(Regions(tables), []), 0);
    assert WithTop(Regions(tables), [])[..n] == Regions(tables[..n]);
  }

  lemma LogsStart(log: seq<int>, saved: seq<SavedTable>, logs: seq<seq<int>>, s: SavedTable)
    requires LogsOk(log, saved, logs) && s.plEnd == |log|
    ensures LogsOk(log, saved + [s], logs + [[]])
  {
    forall k | 0 <= k < |logs| + 1 ensures LogOk(log, saved + [s], logs + [[]], k) {
      if k < |logs| { assert LogOk(log, saved, logs, k); }
    }
  }

  lemma LogsAppend(log: seq<int>, saved: seq<SavedTable>, logs: seq<seq<int>>, at: int)
    requires LogsOk(log, saved, logs) && logs != []
    ensures LogsOk(log + [at], saved, WithTop(logs, Top(logs) + [at]))
  {
    forall k | 0 <= k < |logs| ensures LogOk(log + [at], saved, WithTop(logs, Top(logs) + [at]), k) {
      assert LogOk(log, saved, logs, k);
    }
  }

  lemma LogsEnd(log: seq<int>, saved: seq<SavedTable>, logs: seq<seq<int>>)
    requires LogsOk(log, saved, logs) && logs != []
    ensures var n := |saved| - 1;
      |saved| == |logs| && saved[n].plEnd <= |log| && log[saved[n].plEnd..] == Top(logs) &&
      LogsOk(log[..saved[n].plEnd], saved[..n], logs[..n])
  {
    var n := |saved| - 1;
    assert LogOk(log, saved, logs, n);
    LogsBelow(log, saved, logs, n);
    forall k | 0 <= k < n ensures LogOk(log[..saved[n].plEnd], saved[..n], logs[..n], k) {
      assert LogOk(log, saved, logs, k);
      LogsBelow(log, saved, logs, k + 1);
    }
  }

  /** Saved log positions do not decrease. */
  lemma {:induction false} LogsBelow(log: seq<int>, saved: seq<SavedTable>, logs: seq<seq<int>>, k: nat)
    requires LogsOk(log, saved, logs) && k < |logs|
    ensures saved[k].plEnd <= saved[|saved| - 1].plEnd <= |log|
    decreases |logs| - k
  {
    assert LogOk(log, saved, logs, k);
    if k + 1 < |logs| { LogsBelow(log, saved, logs, k + 1); }
  }

  class TableStack {
    var mem: seq<int>
    var vs: nat
    var idEnd: nat
    var log: seq<int>
    var saved: seq<SavedTable>

    /** Where each open table's region starts, its entries, the count it reserved and its patch log. */
    ghost var firsts: seq<nat>
    ghost var tables: seq<seq<int>>
    ghost var counts: seq<nat>
    ghost var logs: seq<seq<int>>

    ghost predicate Valid()
      reads this
    {
      && EntriesOk(mem, vs, idEnd, saved, firsts, tables, counts) && |counts| == |tables| == |logs|
      && LogsOk(log, saved, logs)
    }

    constructor ()
      ensures Valid() && tables == [] && logs == [] && counts == []
    {
      mem, vs, idEnd, log, saved := [], 0, 0, [], [];
      firsts, tables, counts, logs := [], [], [], [];
    }

    /** Reserves room for entries of ids below `count`; they are all zero. */
    method Start(count: nat)
      requires Valid()
      modifies this
      ensures Valid() && tables == old(tables) + [[]] && logs == old(logs) + [[]] && counts == old(counts) + [count]
    {
      hide EntriesOk, LogsOk;
      var used := vs + idEnd;
      var request := used + count + 2;
      if request > |mem| {
        var n := Rounded(request, VS_BASE);
        EntriesGrow(mem, vs, idEnd, saved, firsts, tables, counts, n);
        mem := mem + Fill(n - |mem|, 0);
      }
      EntriesStart(mem, vs, idEnd, saved, firsts, tables, counts, count, |log|);
      LogsStart(log, saved, logs, SavedTable(vs, idEnd, |log|));
      saved := saved + [SavedTable(vs, idEnd, |log|)];
      vs, idEnd := used + 2, 0;
      firsts, tables, counts, logs := firsts + [used], tables + [[]], counts + [count], logs + [[]];
    }

    /** The innermost table's entry of `id`. */
    method Get(id: nat) returns (v: int)
      requires Valid() && tables != [] && id < Top(counts)
      ensures v == if id < |Top(tables)| then Top(tables)[id] else 0
    {
      hide EntriesOk, LogsOk;
      RegionBytes(mem, vs, idEnd, saved, firsts, tables, counts);
      assert mem[vs + id] == mem[vs - 2..][id + 2];
      v := mem[vs + id];
    }

    method Set(id: nat, v: int)
      requires Valid() && tables != [] && id < Top(counts)
      modifies this`mem, this`idEnd, this`tables
      ensures Valid() && tables == WithTop(old(tables), SetEntry(Top(old(tables)), id, v))
    {
      hide EntriesOk, LogsOk;
      RegionBytes(mem, vs, idEnd, saved, firsts, tables, counts);
      ghost var was, entries := mem, SetEntry(Top(tables), id, v);
      mem := mem[vs + id := v];
      assert mem[vs - 2..] == was[vs - 2..][id + 2 := v];
      assert mem[vs - 2..] == Region(entries) + Fill(|mem| - vs - |entries|, 0);
      EntriesReplace(was, vs, idEnd, saved, firsts, tables, counts, entries, mem);
      if id >= idEnd { idEnd := id + 1; }
      tables := WithTop(tables, entries);
    }

    /** Records the place of a reference that becomes an offset when the table ends. */
    method Log(at: int)
      requires Valid() && logs != []
      modifies this`log, this`logs
      ensures Valid() && logs == WithTop(old(logs), Top(old(logs)) + [at])
    {
      hide EntriesOk, LogsOk;
      LogsAppend(log, saved, logs, at);
      log, logs := log + [at], WithTop(logs, Top(logs) + [at]);
    }

    /** Completes the header and yields the vtable and the log, then clears the region and returns
        to the parent, whose entries and log are as they were. */
    method End(tableSize: int) returns (vt: seq<int>, pl: seq<int>)
      requires Valid() && tables != []
      modifies this
      ensures Valid() && tables == old(tables)[..|old(tables)| - 1] && logs == old(logs)[..|old(tables)| - 1]
      ensures counts == old(counts)[..|old(tables)| - 1]
      ensures pl == Top(old(logs)) && vt == [2 * (|Top(old(tables))| + 2), tableSize] + Top(old(tables))
    {
      hide EntriesOk, LogsOk;
      RegionBytes(mem, vs, idEnd, saved, firsts, tables, counts);
      ghost var was := mem;
      mem := mem[vs - 2 := 2 * (idEnd + 2)][vs - 1 := tableSize];
      vt := mem[vs - 2..vs + idEnd];
      HeaderFilled(was, vs, Top(tables), 2 * (idEnd + 2), tableSize);
      mem := mem[..vs - 2] + Fill(idEnd + 2, 0) + mem[vs + idEnd..];
      RegionCleared(was, vs, Top(tables), 2 * (idEnd + 2), tableSize);
      EntriesReplace(was, vs, idEnd, saved, firsts, tables, counts, [], mem);
      LogsEnd(log, saved, logs);
      EntriesEnd(mem, vs, 0, saved, firsts, WithTop(tables, []), counts);
      var s := saved[|saved| - 1];
      pl := log[s.plEnd..];
      vs, idEnd, log := s.vs, s.idEnd, log[..s.plEnd];
      ghost var n := |saved| - 1;
      assert WithTop(tables, [])[..n] == tables[..n];
      saved, firsts, tables, counts, logs := saved[..|saved| - 1], firsts[..n], tables[..n], counts[..n], logs[..n];
    }
  }
}
