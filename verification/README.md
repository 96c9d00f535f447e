# Models of the data engines behind the ADBC NIF

The Elixir bindings for Arrow Database Connectivity talk to drivers through a thin NIF (`c_src`), which
stands on two vendored engines: the flatcc runtime for FlatBuffers and nanoarrow for Arrow arrays. This
project models those engines and the bit-level code of the NIF in Dafny, and proves what they are relied on
for. `dafny verify dfyconfig.toml` checks everything.

## What is modelled

**FlatBuffers: builder, cache, verifier.** The builder grows a buffer both ways from address 0 in a signed
virtual address space. Objects under construction are frames on a data stack, a vtable stack and a patch log.

- `FlatBytes`, `FlatSchema`: bytes, alignment, table schemas and decoded values.
- `FlatReader`: what a reader does that follows vtables and offsets without any check of its own.
- `FlatVerifier`: the verifier, in wrapping 32-bit arithmetic. `FlatSoundness`: what it accepts is safe to read.
  `FlatPresence`: and has its identifier and all required fields.
- `FlatGraph`, `FlatEmission`, `FlatTables`: the address space, the direct `create` calls, and what each lays out.
- `FlatVtableCache`: the cache of emitted vtables, hash chains with move-to-front.
- `FlatStacks`, `FlatBuilderState`, `FlatBuilder`: the stacks, the invariants between calls, and the builder.
  Every `end` call emits exactly what the direct call with the collected contents emits.
- `FlatRoundTrip`, `FlatAcceptance`: a finished buffer reads back as what was built, and the verifier's verdict
  on it is known in advance. `FlatNesting`: accepted buffers of any depth.
- `FlatRuns`: whole runs of the builder; what fits the address range is built without failing.

The value of a buffer is defined on the graph of objects handed to the builder (`FlatRoundTrip.TableOf`), with no
reference to bytes; the round trip connects it with the reader and the verifier, which know only bytes.

**The paged emitter and the address map.** `Emitter` is a ring of linked pages proved to be a double-ended queue
of bytes, the same address space the builder reasons about. `RefMap` is an open-addressing table proved to be a
finite map through any run of insertions, resizes and resets.

**Bits, decimals, metadata.** `Bits` and `Bitmap` prove the masked bit-range operations against plain sequences of
bits, the form in which the array modules have their bitmaps; `Validity` does the same for the slice and copy of
validity bitmaps in the NIF and proves that the two fit together. `Numerals` and `Decimals` prove the 128- and 256-bit
decimal parser and printer, down to the word-by-word long multiplication and division. `Metadata` is the key/value
codec of schema metadata.

**Arrays.** `ArrayViews` has the three levels of validation and the theorem that what the full level accepts can be
read safely; `ArrayLayout` tells from its layout alone whether a view is accepted, at any offset. `ArrayAppend` has
the append operations over a tree of arrays and the readers: what has been appended, and nothing else, is read back,
and is accepted by validation. `BinaryViews` has view arrays, with the reader of nanoarrow and the decoder of the NIF.

## Where the code and its documentation differ

The models follow the code.

- The end of a buffer is padded by its remainder instead of by what is missing, so it is not always a full multiple
  of the block alignment, as `flatcc_builder.h:217-219` has it. `FlatEmission.EndPadding` says exactly when it is, and
  `FlatTables.EndNotAlwaysAligned` shows a space where it is not.
- The verifier checks scalar fields at their place in memory, although its header file says that the alignment of
  the buffer's address does not matter. It does not check vectors there: whether their elements are aligned is up
  to where the caller puts the buffer (`FlatSoundness.VectorPlacement`, `FlatSoundness.PlacementDecides`).
- The limit of 100 levels does not bound nesting (`FlatNesting.NestingIsNotBounded`).
- The vtable offset check is right exactly for tables below 2^31 (`FlatVerifier.VtableBaseExact`), though buffers
  of up to 2^32 - 9 bytes pass the size check. Accepted buffers of a size are safe exactly when it is below
  2^31 + 4 (`FlatSoundness.SizeDecides`, with an unsafe buffer of every larger size in `FlatSoundness.LargeIsUnsafe`).
- Vtables that the builder has put behind more than 2^31 bytes are refused by the verifier
  (`FlatAcceptance.FarVtableRejected`), although the builder goes on to almost 2^32 bytes.
- An emission of 2^32 bytes or slightly more passes the builder's length test and wraps
  (`FlatEmission.EmitFrontResult`, `FlatEmission.EmitBackResult`).
- A vector at its maximum count takes one more element by pushing, and can then no longer be ended
  (`FlatBuilder.Builder.VectorPush`).
- Adding a table field twice fails but has raised the table's alignment by then (`FlatBuilder.Builder.TableAdd`).
- `flatcc_emitter_copy_buffer` returns an address inside the buffer when the contents take several pages
  (`Emitter.Emitter.CopyBuffer`).
- A decimal consisting of a sign alone parses as 0, and a number out of range wraps around.
- Metadata keys are compared up to a zero byte (`Metadata.KeysCompared`).
- Two kinds of array views pass full validation and are not safe to read: one with elements and a validity pointer
  of known size 0 beside a null count of 0 (`ArrayViews.EmptyBitmapIsUnsafe`), and a run-end encoded array without
  any run ends (`ArrayViews.NoRunIsUnsafe`). The condition `ArrayViews.Readable` names exactly these
  (`ArrayViews.AcceptedIsSafe`).
- Appending several nulls or empty elements to a bool array grows its bits for one element only, and writes behind
  them from the ninth on (`ArrayAppend.NinthBoolDoesNotFit`); `ArrayAppend.EmptyContinues` has the exact condition.
- Spreading a flag to a byte by negation fills it evenly only for the flags 0 and 1 (`Bits.FillsEvenly`).

## Model

| member | source | states |
|---|---|---|
| `FlatVerifier.HeaderDoesNotWrap` | 3rd_party/nanoarrow/flatcc.c:2445-2455 | an offset that passes the header check leads forward, and the 32-bit sum of place and offset has not wrapped |
| `FlatVerifier.ReadVtEntry` | 3rd_party/nanoarrow/flatcc.c:2470-2479 | the entry read is the one a reader finds for the id, 0 when the vtable is too short for it |
| `FlatVerifier.OffsetFieldAt` | 3rd_party/nanoarrow/flatcc.c:2533-2563 | an offset field reported present lies inside the buffer behind the table header, word aligned, at its vtable entry; one reported absent has no entry and was not required |
| `FlatVerifier.CountFits` | 3rd_party/nanoarrow/flatcc.c:2582-2601 | a count that passes the limit cannot make count times element size wrap at 2^32 |
| `FlatVerifier.VectorAccepted` | 3rd_party/nanoarrow/flatcc.c:2582-2601 | an accepted vector lies inside the buffer with all its elements, its length word aligned and, unless empty, its first element aligned for the element type |
| `FlatVerifier.OffsetVectorFits` | 3rd_party/nanoarrow/flatcc.c:2603-2615 | every offset of an accepted offset vector lies inside the buffer |
| `FlatVerifier.VtableBaseIsSigned` | 3rd_party/nanoarrow/flatcc.c:2617-2645 | the wrapped difference of table and vtable offset that passes the test below 2^31 is the signed one |
| `FlatVerifier.VtableBaseExact` | 3rd_party/nanoarrow/flatcc.c:2617-2645 | whatever offset is stored, that holds if and only if the table lies below 2^31 |
| `FlatVerifier.CheckTable` | 3rd_party/nanoarrow/flatcc.c:2617-2645 | when the header checks pass, table and vtable lie inside the buffer with their stated sizes, aligned, the table behind the place it was reached from; one level has been taken |
| `FlatVerifier.VerifyStringVector` | 3rd_party/nanoarrow/flatcc.c:2603-2615 | the loop over the elements gives the verdict of its recursive definition, which the soundness and round-trip lemmas are about |
| `FlatVerifier.VerifyTableVector` | 3rd_party/nanoarrow/flatcc.c:2647-2660 | the same for table vectors, with the level taken before the elements |
| `FlatSoundness.ScalarSound` | 3rd_party/nanoarrow/flatcc.c:2487-2531 | an accepted scalar or struct field is absent, or lies inside the buffer with its place in memory aligned |
| `FlatSoundness.StringSound` | 3rd_party/nanoarrow/flatcc.c:2565-2576 | an accepted string is reached forward, aligned, lies inside the buffer and ends with a zero byte |
| `FlatSoundness.StringsSound` | 3rd_party/nanoarrow/flatcc.c:2603-2615 | every string an accepted string vector leads to can be read |
| `FlatSoundness.VectorSound` | 3rd_party/nanoarrow/flatcc.c:2582-2601 | the elements of an accepted vector lie inside the buffer, and can be read aligned if and only if there are none or the buffer's address is a multiple of their alignment |
| `FlatSoundness.TableSound` | 3rd_party/nanoarrow/flatcc.c:2617-2645 | an accepted table can be read whole: all declared fields, and all tables, vectors and strings below them |
| `FlatSoundness.TablesSound` | 3rd_party/nanoarrow/flatcc.c:2647-2660 | every table an accepted table vector leads to can be read whole |
| `FlatSoundness.UnionSound` | 3rd_party/nanoarrow/flatcc.c:2939-2971 | an accepted union field has a readable type code and, for a member the schema knows, a readable table or string |
| `FlatSoundness.FieldSound` | 3rd_party/nanoarrow/flatcc.c:2695-2746 | the same for one declared field of any kind |
| `FlatSoundness.VerifiedBufferIsSafe` | 3rd_party/nanoarrow/flatcc.c:2877-2881 | soundness for every byte string and schema: in an accepted buffer below 2^31 + 4 bytes, placed at a multiple of the schema's vector alignments, nothing a reader can reach lies outside, is unaligned or leads backwards |
| `FlatSoundness.VectorPlacement` | 3rd_party/nanoarrow/flatcc.c:2582-2601 | a buffer with one vector is accepted at every word address, and can be read if and only if the address is a multiple of the element alignment |
| `FlatSoundness.PlacementDecides` | 3rd_party/nanoarrow/flatcc.c:2582-2601 | all accepted buffers of a schema with one vector can be read at an address if and only if the address is a multiple of the element alignment |
| `FlatSoundness.LargeIsUnsafe` | 3rd_party/nanoarrow/flatcc.c:2617-2645 | for every size from 2^31 + 4 that the verifier takes there is an accepted buffer with a table whose vtable offset leads a reader outside |
| `FlatSoundness.SizeDecides` | 3rd_party/nanoarrow/flatcc.c:2617-2645 | all accepted buffers of a size can be read, for all schemas and suitable addresses, if and only if the size is below 2^31 + 4 |
| `FlatPresence.IdentifierChecked` | 3rd_party/nanoarrow/flatcc.c:2763-2784 | a buffer is accepted exactly when its address is a word address, it has room for an identifier and leaves 8 bytes of the 32-bit range, its root table passes with 100 levels, and the identifier expected, if any, is its second word |
| `FlatPresence.ScalarInTable` | 3rd_party/nanoarrow/flatcc.c:2487-2531 | an accepted scalar field lies inside the stated size of its table |
| `FlatPresence.OffsetInTable` | 3rd_party/nanoarrow/flatcc.c:2533-2563 | so does an accepted offset field |
| `FlatPresence.StatedSize` | 3rd_party/nanoarrow/flatcc.c:2617-2645 | the stated size is the second word of the vtable, and the table lies inside the buffer with it |
| `FlatPresence.UnionRules` | 3rd_party/nanoarrow/flatcc.c:2939-2971 | an accepted union has no value without a type or with type 0; a required one has a type, and a value unless the type is 0 |
| `FlatPresence.VerifiedHasRequired` | 3rd_party/nanoarrow/flatcc.c:2661-2746 | an accepted buffer reads as a value that has every required field, in the root and in all tables below it |
| `FlatGraph.GraphKept` | 3rd_party/nanoarrow/flatcc.c:640-699 | whatever is emitted later, at either end, every object built before keeps its layout |
| `FlatGraph.GraphGrows` | 3rd_party/nanoarrow/flatcc.c:1251-1289 | adding an object that refers to objects already there keeps the whole graph laid out |
| `FlatRoundTrip.FinishedIsOrdered` | 3rd_party/nanoarrow/flatcc.c:1451-1499 | in a finished buffer every reference leads to an object at a higher address, so graphs have no cycles |
| `FlatRoundTrip.SmallIsInReach` | 3rd_party/nanoarrow/flatcc.c:2624-2630 | in a buffer of up to 2^31 bytes every vtable is within reach of the verifier's test |
| `FlatRoundTrip.TargetReached` | 3rd_party/nanoarrow/flatcc.c:2445-2455 | following a stored offset in a finished buffer reaches the object referred to, and the header check passes |
| `FlatRoundTrip.VtableReached` | 3rd_party/nanoarrow/flatcc.c:2617-2645 | a reader finds the vtable of every table, and each entry as it was laid out |
| `FlatRoundTrip.ReadsString` | 3rd_party/nanoarrow/flatcc.c:1736-1753 | reading a created string gives its characters |
| `FlatRoundTrip.ReadsVector` | 3rd_party/nanoarrow/flatcc.c:1381-1413 | reading a created vector gives its count and its element bytes, aligned for any element type up to its alignment |
| `FlatRoundTrip.ReadsTable` | 3rd_party/nanoarrow/flatcc.c:1251-1289 | reading a created table by its schema gives the value of the graph, all levels deep |
| `FlatRoundTrip.ReadsUnion` | 3rd_party/nanoarrow/flatcc.c:2939-2971 | reading a union field gives its type code and the member it was given |
| `FlatRoundTrip.ReadsListAt` | 3rd_party/nanoarrow/flatcc.c:1451-1499 | reading an offset vector gives the strings or tables it refers to, in order |
| `FlatAcceptance.HeaderAccepted` | 3rd_party/nanoarrow/flatcc.c:2617-2645 | the table header check passes on every built table within reach unless the levels are used up, whatever the vtable is shared with |
| `FlatAcceptance.FarVtableRejected` | 3rd_party/nanoarrow/flatcc.c:2617-2645 | a table whose vtable lies at 2^31 or above in the buffer is refused at its header, at any level |
| `FlatAcceptance.FarRootRejected` | 3rd_party/nanoarrow/flatcc.c:2877-2881 | so is the whole buffer when that table is the root |
| `FlatAcceptance.JudgesTable` | 3rd_party/nanoarrow/flatcc.c:2617-2645 | a built table that matches the schema is accepted exactly when its value stays within the levels |
| `FlatAcceptance.JudgesUnion` | 3rd_party/nanoarrow/flatcc.c:2939-2971 | the same for union fields, with the rules for absent types, absent members and the code 0 |
| `FlatAcceptance.JudgesTableVector` | 3rd_party/nanoarrow/flatcc.c:2647-2660 | the same for table vectors |
| `FlatAcceptance.RoundTrip` | 3rd_party/nanoarrow/flatcc.c:2763-2881 | a finished buffer of any size the verifier takes, with vtables below 2^31, whose first word leads to a root matching the schema reads back as exactly the value of the graph, and is accepted if and only if that value stays within 100 levels and the second word is the identifier expected, if one is |
| `FlatAcceptance.ShallowWithinLevels` | 3rd_party/nanoarrow/flatcc.c:2617-2660 | a value with fewer nested tables and table vectors than the limit stays within it |
| `FlatAcceptance.TablesWithinLevels` | 3rd_party/nanoarrow/flatcc.c:2617-2645 | tables inside tables alone, without lists, stay within the limit if and only if there are fewer of them nested |
| `FlatNesting.NestingIsNotBounded` | 3rd_party/nanoarrow/flatcc.c:2647-2657 | the limit of 100 levels does not bound nesting: for every m that the buffer size allows, a buffer that reads back with 101 + m levels is accepted, since a table vector may hand on a countdown of 0 |
| `FlatBuilder.BuiltBufferRoundTrip` | 3rd_party/nanoarrow/flatcc.c:746-791 | what ending the buffer leaves behind, placed at any multiple of its alignment, reads back as the value that was built and is accepted exactly when that stays within the levels and the identifier expected, if any, is its own; another one than the buffer was given is refused as such |
| `FlatRuns.Run` | 3rd_party/nanoarrow/flatcc.c:811-871 | a whole run from an empty builder, of strings, vectors, offset vectors and tables that fit the address range, ends with a buffer whose root was asked for; every object built is the one asked for |
| `FlatRuns.BuildAll` | 3rd_party/nanoarrow/flatcc.c:1331-1379 | the objects of such a run are built one after the other without failing, within the sum of their sizes |
| `FlatRuns.AddRecord` | 3rd_party/nanoarrow/flatcc.c:1331-1379 | a table of given fields is built where there is room, and has exactly those fields |
| `FlatRuns.BuiltMore` | 3rd_party/nanoarrow/flatcc.c:640-699 | objects built before stay what they were when another one is added |
| `FlatEmission.EmitFrontResult` | 3rd_party/nanoarrow/flatcc.c:640-669 | an emission below 2^32 bytes fails exactly when it is empty or the address range is used up, else it lies in front and nothing moves; a longer one is refused unless it is 1 to 15 bytes over 2^32, when its length wraps and it does not fit its addresses |
| `FlatEmission.EmitBackResult` | 3rd_party/nanoarrow/flatcc.c:671-699 | an emission behind fails exactly when its length modulo 2^32 uses up the address range; it lies at the old end, with the reference one above, exactly when it is below 2^32 bytes |
| `FlatBytes.AlignDownIsGreatest` | 3rd_party/nanoarrow/flatcc.c:630-633 | rounding down gives the greatest multiple of the alignment that is not above |
| `FlatEmission.PaddedEmitted` | 3rd_party/nanoarrow/flatcc.c:630-633 | front padding puts the first byte behind the header word on a multiple of the alignment, from any start; the emission succeeds exactly when the greatest such place lies in the address range |
| `FlatEmission.StringCreated` | 3rd_party/nanoarrow/flatcc.c:1736-1753 | the emitted string has its length, its characters and a zero byte, its header word aligned; it is emitted exactly when its length fits 32 bits and its place the address range |
| `FlatEmission.VectorCreated` | 3rd_party/nanoarrow/flatcc.c:1381-1413 | the emitted vector has its count and elements, the first element aligned; it is emitted exactly when the count is within the maximum and its place in the address range |
| `FlatEmission.OffsetStored` | 3rd_party/nanoarrow/flatcc.c:1451-1499 | each stored offset added to its own place gives the address referred to |
| `FlatEmission.OffsetVectorCreated` | 3rd_party/nanoarrow/flatcc.c:1451-1499 | the emitted offset vector leads to the given objects, in order; it is emitted exactly when its size fits 32 bits and its place the address range |
| `FlatEmission.HeaderEmitted` | 3rd_party/nanoarrow/flatcc.c:746-791 | the buffer starts on a multiple of its alignment with a word that leads to the root, followed by the identifier if there is one; the header is emitted exactly when that place lies in the address range |
| `FlatEmission.EndPadding` | 3rd_party/nanoarrow/flatcc.c:635-638 | padding the end by its remainder completes a multiple of the alignment if and only if the end was a multiple of half the alignment |
| `FlatTables.EndNotAlwaysAligned` | 3rd_party/nanoarrow/flatcc.c:702-723 | so it is not always one: a space that holds one vtable of a single field ends at 6, and is padded to 12 for alignment 8 |
| `FlatTables.VtReads` | 3rd_party/nanoarrow/flatcc.c:1110-1172 | a stored vtable reads as a vtable with these entries, and with 0 beyond them |
| `FlatTables.VtableCreated` | 3rd_party/nanoarrow/flatcc.c:1110-1172 | a vtable goes behind the buffer when vtables are clustered and in front otherwise; one below the returned reference lie its bytes |
| `FlatTables.VtableFits` | 3rd_party/nanoarrow/flatcc.c:1155-1169 | a vtable cannot be emitted exactly when it would leave the address range at its end |
| `FlatTables.PatchKeeps` | 3rd_party/nanoarrow/flatcc.c:1251-1289 | turning logged references into offsets leaves every stretch that meets no logged place alone |
| `FlatTables.PatchSets` | 3rd_party/nanoarrow/flatcc.c:1251-1289 | each logged place ends up with the distance from itself to the object, modulo 2^32 |
| `FlatTables.FieldCreated` | 3rd_party/nanoarrow/flatcc.c:1251-1289 | every field of the emitted table holds its bytes, aligned, or an offset that leads to its object |
| `FlatTables.TableCreated` | 3rd_party/nanoarrow/flatcc.c:1251-1289 | the emitted table refers to its vtable and has exactly the fields that were added; it is emitted exactly when its place lies in the address range |
| `FlatVtableCache.MoveToFront` | 3rd_party/nanoarrow/flatcc.c:1204-1209 | unlinking a descriptor and linking it in front leaves one chain of the same descriptors in the new order |
| `FlatVtableCache.InsertIntoBucket` | 3rd_party/nanoarrow/flatcc.c:1217-1249 | linking a new descriptor in front makes exactly its own entries known |
| `FlatVtableCache.BucketKept` | 3rd_party/nanoarrow/flatcc.c:1214-1249 | growing the descriptor array and the stored copies, and changing other buckets, keeps what a bucket knows |
| `FlatVtableCache.CopiesKnown` | 3rd_party/nanoarrow/flatcc.c:1184-1212 | a chain has a copy of entries exactly when they are known for some buffer |
| `FlatVtableCache.VtableCache.SameEntries` | 3rd_party/nanoarrow/flatcc.c:1188-1193 | comparing size and bytes recognises exactly the stored copy of the entries |
| `FlatVtableCache.VtableCache.constructor` | 3rd_party/nanoarrow/flatcc.c:396-420 | an empty cache without a table |
| `FlatVtableCache.VtableCache.Prepare` | 3rd_party/nanoarrow/flatcc.c:344-367 | the table and the null descriptor are allocated on first use; what is known stays |
| `FlatVtableCache.VtableCache.Flush` | 3rd_party/nanoarrow/flatcc.c:383-394 | nothing is known any more; the table keeps its size |
| `FlatVtableCache.VtableCache.Search` | 3rd_party/nanoarrow/flatcc.c:1184-1212 | the chain walk finds the descriptor with these entries and this buffer if there is one, else a descriptor of another buffer with the same entries |
| `FlatVtableCache.VtableCache.Promote` | 3rd_party/nanoarrow/flatcc.c:1204-1209 | moving a hit to the front keeps everything known |
| `FlatVtableCache.VtableCache.Lookup` | 3rd_party/nanoarrow/flatcc.c:1174-1212 | finds a reference exactly when the entries are known for this buffer and bucket, under any hash collisions, and then the reference they were inserted with |
| `FlatVtableCache.VtableCache.Insert` | 3rd_party/nanoarrow/flatcc.c:1214-1249 | remembers the reference, sharing a stored copy; empties the cache instead exactly when there is a limit and the bytes of the copies with the new one exceed it |
| `FlatBuilder.Builder.CreateCachedVtable` | 3rd_party/nanoarrow/flatcc.c:1174-1249 | known entries of the same buffer give their reference and emit nothing; others are emitted and become known beside all the rest, unless there is a limit that the bytes of the copies would exceed, when everything is forgotten; fails exactly when the entries are new and there is no room |
| `FlatBuilder.Builder.EmitVtable` | 3rd_party/nanoarrow/flatcc.c:1110-1172 | emits the vtable behind or in front; fails exactly when that end has no room |
| `FlatBuilderState.RepeatedVtable` | 3rd_party/nanoarrow/flatcc.c:1174-1249 | in any run of such calls, with any other vtables between them, repeated entries give the same reference and emit nothing unless the cache was flushed in between |
| `FlatBuilderState.WithoutLimit` | 3rd_party/nanoarrow/flatcc.c:1235-1237 | without a limit no call of any run flushes, so repeated entries always give the same reference |
| `FlatBuilderState.WithinLimit` | 3rd_party/nanoarrow/flatcc.c:1235-1237 | with a limit nothing is flushed while all entries asked for take no more bytes than it |
| `FlatBuilderState.StepSpan` | 3rd_party/nanoarrow/flatcc.c:1110-1172 | a call takes at most its vtable's bytes, behind the buffer or in front |
| `FlatBuilderState.VtableEmittedBy` | 3rd_party/nanoarrow/flatcc.c:1174-1249 | the reference a call returns was given to exactly these entries when they were emitted into the same buffer, by this call or an earlier one |
| `FlatStacks.StackedReplace` | 3rd_party/nanoarrow/flatcc.c:237-265 | changing the innermost frame leaves the frames below and the zeros above as they were |
| `FlatStacks.StackedExit` | 3rd_party/nanoarrow/flatcc.c:609-628 | leaving an emptied frame leaves the parents as they were, with zeros above them |
| `FlatStacks.DataStack.constructor` | 3rd_party/nanoarrow/flatcc.c:396-420 | no frames and no memory |
| `FlatStacks.DataStack.Refresh` | 3rd_party/nanoarrow/flatcc.c:204-219 | the limit is the room left, at most the frame type allows |
| `FlatStacks.DataStack.Reserve` | 3rd_party/nanoarrow/flatcc.c:221-235 | makes room and keeps every frame; new memory is zero |
| `FlatStacks.DataStack.Enter` | 3rd_party/nanoarrow/flatcc.c:581-607 | a new empty frame above the others, which keep their contents |
| `FlatStacks.DataStack.Push` | 3rd_party/nanoarrow/flatcc.c:237-248 | the innermost frame is extended by zeros; every other frame keeps its contents |
| `FlatStacks.DataStack.PushCopy` | 3rd_party/nanoarrow/flatcc.c:256-265 | the innermost frame is extended by the data |
| `FlatStacks.DataStack.Unpush` | 3rd_party/nanoarrow/flatcc.c:250-254 | the last bytes are dropped, and are zero again |
| `FlatStacks.DataStack.PushField` | 3rd_party/nanoarrow/flatcc.c:267-290 | the field goes to the next multiple of its alignment, with zeros before it |
| `FlatStacks.DataStack.PushOffsetField` | 3rd_party/nanoarrow/flatcc.c:292-308 | the same for a reference |
| `FlatStacks.DataStack.Exit` | 3rd_party/nanoarrow/flatcc.c:609-628 | the parents have exactly the contents they had before |
| `FlatStacks.TableStack.Start` | 3rd_party/nanoarrow/flatcc.c:323-342 | a new table without entries or log; the open ones keep theirs |
| `FlatStacks.TableStack.Get` | 3rd_party/nanoarrow/flatcc.c:1789-1827 | the entry of an id, 0 for ids not yet set |
| `FlatStacks.TableStack.Set` | 3rd_party/nanoarrow/flatcc.c:285-288 | sets one entry; ids skipped over read as 0, other tables keep their entries |
| `FlatStacks.TableStack.Log` | 3rd_party/nanoarrow/flatcc.c:302-306 | logs a place for the innermost table only |
| `FlatStacks.TableStack.End` | 3rd_party/nanoarrow/flatcc.c:1331-1379 | yields header and entries, and the log; the parents have the entries and logs they had before |
| `FlatStacks.AllocSizeGap` | 3rd_party/nanoarrow/flatcc.c:221-235 | the default allocator, which grows by doubling from a base size, never has to shrink the data stack |
| `FlatBuilderState.EmissionGrows` | 3rd_party/nanoarrow/flatcc.c:640-699 | emitting more keeps the objects, their alignment and the cached vtables |
| `FlatBuilderState.EmissionCreates` | 3rd_party/nanoarrow/flatcc.c:1381-1413 | a new object has a new reference and joins the graph |
| `FlatBuilderState.TableAdds` | 3rd_party/nanoarrow/flatcc.c:1789-1862 | adding a field of its own keeps all fields of an open table apart, aligned, entered and, if they are references, logged |
| `FlatBuilderState.FramesPop` | 3rd_party/nanoarrow/flatcc.c:609-628 | leaving a frame restores the parent frame, its data and its alignment |
| `FlatBuilderState.TablesOkPop` | 3rd_party/nanoarrow/flatcc.c:1331-1379 | leaving a table restores the entries and the log of the table around it |
| `FlatBuilder.Builder.constructor` | 3rd_party/nanoarrow/flatcc.c:422-425 | an empty builder |
| `FlatBuilder.Builder.CreateString` | 3rd_party/nanoarrow/flatcc.c:1736-1753 | emits the string at the greatest aligned place below the start and adds it to the graph under that reference; fails exactly when the length exceeds 32 bits or that place is below the address range, and then changes nothing |
| `FlatBuilder.Builder.CreateVector` | 3rd_party/nanoarrow/flatcc.c:1381-1413 | emits the vector at the greatest aligned place and adds it to the graph; fails exactly when the count exceeds the maximum or that place is below the range; the buffer alignment covers it |
| `FlatBuilder.Builder.CreateOffsetVector` | 3rd_party/nanoarrow/flatcc.c:1057-1070 | emits offsets to objects of the graph and adds the vector to it; fails exactly when the size exceeds 32 bits or there is no room |
| `FlatBuilder.Builder.SetMinAlign` | 3rd_party/nanoarrow/flatcc.c:501-506 | the buffer alignment is the largest asked for so far |
| `FlatBuilder.Builder.StartString` | 3rd_party/nanoarrow/flatcc.c:1072-1082 | opens an empty string inside the open objects |
| `FlatBuilder.Builder.AppendString` | 3rd_party/nanoarrow/flatcc.c:985-992 | the string grows by the characters exactly when its length stays below 2^32 |
| `FlatBuilder.Builder.TruncateString` | 3rd_party/nanoarrow/flatcc.c:1022-1029 | drops the last characters exactly when there are that many |
| `FlatBuilder.Builder.EndString` | 3rd_party/nanoarrow/flatcc.c:1765-1777 | emits the same bytes and reference as one direct call with all characters, fails exactly when that does, and returns to the parent as it was |
| `FlatBuilder.Builder.StartVector` | 3rd_party/nanoarrow/flatcc.c:1031-1043 | opens an empty vector with its alignment at least 4 |
| `FlatBuilder.Builder.ExtendVector` | 3rd_party/nanoarrow/flatcc.c:918-924 | adds zero elements exactly when the count stays within the maximum |
| `FlatBuilder.Builder.VectorPush` | 3rd_party/nanoarrow/flatcc.c:926-932 | adds one element while the count is at most the maximum, so a full vector takes one too many |
| `FlatBuilder.Builder.AppendVector` | 3rd_party/nanoarrow/flatcc.c:934-941 | adds elements exactly when the count stays within the maximum |
| `FlatBuilder.Builder.TruncateVector` | 3rd_party/nanoarrow/flatcc.c:1004-1011 | drops the last elements exactly when there are that many |
| `FlatBuilder.Builder.EndVector` | 3rd_party/nanoarrow/flatcc.c:1425-1438 | emits the same bytes and reference as one direct call with all elements, fails exactly when that does, and returns to the parent as it was |
| `FlatBuilder.Builder.StartOffsetVector` | 3rd_party/nanoarrow/flatcc.c:1045-1055 | opens an empty offset vector |
| `FlatBuilder.Builder.OffsetVectorPush` | 3rd_party/nanoarrow/flatcc.c:951-965 | adds one reference unless the vector is full |
| `FlatBuilder.Builder.TruncateOffsetVector` | 3rd_party/nanoarrow/flatcc.c:1013-1020 | drops the last references exactly when there are that many |
| `FlatBuilder.Builder.EndOffsetVector` | 3rd_party/nanoarrow/flatcc.c:1507-1518 | emits the same bytes and reference as one direct call with all references, fails exactly when that does, and returns to the parent as it was |
| `FlatBuilder.Builder.StartTable` | 3rd_party/nanoarrow/flatcc.c:1090-1108 | opens a table without fields |
| `FlatBuilder.Builder.TableAdd` | 3rd_party/nanoarrow/flatcc.c:1789-1844 | adds the field exactly when the id is new; its place is aligned, and no field added before changes |
| `FlatBuilder.Builder.TableAddOffset` | 3rd_party/nanoarrow/flatcc.c:1846-1862 | adds a reference exactly when the id is new, and logs it |
| `FlatBuilder.Builder.PatchReferences` | 3rd_party/nanoarrow/flatcc.c:1278-1282 | the loop over the log turns each logged reference into an offset, as its recursive definition says |
| `FlatBuilder.Builder.EmitTable` | 3rd_party/nanoarrow/flatcc.c:1251-1289 | emits the same bytes as a direct call and adds the table with all its fields to the graph; fails exactly when its aligned place is below the address range |
| `FlatBuilder.Builder.CloseTable` | 3rd_party/nanoarrow/flatcc.c:1331-1362 | the data, vtable and patch log of the innermost table; the frames below stay in order |
| `FlatBuilder.Builder.LeaveTable` | 3rd_party/nanoarrow/flatcc.c:1363-1379 | leaves the frame of the table just emitted |
| `FlatBuilder.Builder.EndTable` | 3rd_party/nanoarrow/flatcc.c:1331-1379 | the vtable holds the entries set, is found or emitted, and the table emitted refers to it; what the cache knows changes as in creating the vtable; the parent is as it was; fails exactly when there is no room for a new vtable or for the table |
| `FlatBuilder.Builder.StartBuffer` | 3rd_party/nanoarrow/flatcc.c:811-848 | opens the top-level buffer and remembers identifier and block alignment |
| `FlatBuilder.Builder.AlignEnd` | 3rd_party/nanoarrow/flatcc.c:702-723 | pads the end exactly when the padded end stays below 2^31; the result is a multiple of the alignment if and only if the end was one of half of it |
| `FlatBuilder.Builder.CreateBuffer` | 3rd_party/nanoarrow/flatcc.c:746-791 | the start is the greatest multiple of the largest alignment asked for or needed that leaves room for the header, and its word leads to the root; fails exactly when padding or header do not fit |
| `FlatBuilder.Builder.EndBuffer` | 3rd_party/nanoarrow/flatcc.c:850-871 | everything built is finished, ready to be read and verified at any multiple of the buffer alignment, the largest asked for, if its vtables lie below 2^31, as they do up to that size; fails exactly when padding or header do not fit; the end is a multiple of the alignment if and only if it was one of half of it |
| `Emitter.PageOfAddress` | 3rd_party/nanoarrow/flatcc/flatcc_emitter.h:86-112 | each address of the contents is found in exactly the used page whose offset is next below it |
| `Emitter.WriteFront` | 3rd_party/nanoarrow/flatcc.c:2139-2162 | writing below the front cursor prepends to the contents |
| `Emitter.WriteBack` | 3rd_party/nanoarrow/flatcc.c:2164-2186 | writing from the back cursor appends to the contents |
| `Emitter.PageInFront` | 3rd_party/nanoarrow/flatcc.c:2056-2096 | a page put in front, one page size lower, becomes the front with all its room |
| `Emitter.PageBehind` | 3rd_party/nanoarrow/flatcc.c:2098-2137 | a page behind, one page size higher, becomes the back with all its room |
| `Emitter.LinkPage` | 3rd_party/nanoarrow/flatcc.c:2069-2075 | linking a page in keeps the ring well linked both ways |
| `Emitter.UnlinkPage` | 3rd_party/nanoarrow/flatcc.c:2221-2228 | taking a page out keeps the ring well linked both ways |
| `Emitter.CopyPieces` | 3rd_party/nanoarrow/flatcc.c:2282-2290 | the pieces are copied one after the other |
| `Emitter.BuilderEmits` | 3rd_party/nanoarrow/flatcc.c:640-699 | what the builder emits in front has a negative offset and prepends; what it emits behind has none and appends |
| `Emitter.Emitter.constructor` | 3rd_party/nanoarrow/flatcc/flatcc_emitter.h:114-120 | an empty emitter without pages |
| `Emitter.Emitter.FirstPage` | 3rd_party/nanoarrow/flatcc.c:2078-2091 | the first page is shared, half of it for each end |
| `Emitter.Emitter.AddPage` | 3rd_party/nanoarrow/flatcc.c:2065-2077 | a new page joins the ring between back and front; contents stay and the capacity grows by one page |
| `Emitter.Emitter.AdvanceFront` | 3rd_party/nanoarrow/flatcc.c:2056-2096 | the front gets a page with room; contents stay |
| `Emitter.Emitter.AdvanceBack` | 3rd_party/nanoarrow/flatcc.c:2098-2137 | the back gets a page with room; contents stay |
| `Emitter.Emitter.CopyFront` | 3rd_party/nanoarrow/flatcc.c:2139-2162 | prepends data of any length, over any number of pages |
| `Emitter.Emitter.CopyBack` | 3rd_party/nanoarrow/flatcc.c:2164-2186 | appends data of any length, over any number of pages |
| `Emitter.Emitter.Emit` | 3rd_party/nanoarrow/flatcc.c:2247-2291 | a negative offset prepends the concatenated pieces, any other appends them; the count of used bytes is the length of the contents |
| `Emitter.Emitter.Reset` | 3rd_party/nanoarrow/flatcc.c:2202-2229 | empties the emitter and frees pages behind the front one while the average use is below half of the capacity, keeping the others in order |
| `Emitter.Emitter.CopyBuffer` | 3rd_party/nanoarrow/flatcc.c:2293-2319 | writes exactly the contents to the start of the buffer, or nothing when it is too small; the result is the start of the buffer only if one page holds everything |
| `Emitter.Emitter.DirectBuffer` | 3rd_party/nanoarrow/flatcc/flatcc_emitter.h:171-183 | the contents in place, exactly when one page holds them |
| `RefMap.ProbeReaches` | 3rd_party/nanoarrow/flatcc.c:3038-3038 | linear probing from any start reaches every slot |
| `RefMap.EmptySlot` | 3rd_party/nanoarrow/flatcc.c:3030-3036 | fewer entries than slots leave a slot empty, so probing ends |
| `RefMap.LoadFactor` | 3rd_party/nanoarrow/flatcc.c:3030-3036 | a table not above its load factor is less than 0.7 full, one above it is nearly that full |
| `RefMap.NotInMap` | 3rd_party/nanoarrow/flatcc.c:3149-3168 | an empty slot at the end of a path of other addresses means the address is not in the map |
| `RefMap.Stored` | 3rd_party/nanoarrow/flatcc.c:3121-3147 | storing in the empty slot that probing leads to adds exactly that entry |
| `RefMap.Replaced` | 3rd_party/nanoarrow/flatcc.c:3121-3147 | replacing the reference in its slot changes exactly that entry |
| `RefMap.BucketsFor` | 3rd_party/nanoarrow/flatcc.c:3077-3090 | the least doubling of the least size that stays below the load factor |
| `RefMap.ReinsertTakes` | 3rd_party/nanoarrow/flatcc.c:3105-3113 | inserting again the entries of the old table never finds more entries than there were, so it never resizes |
| `RefMap.AllReinserted` | 3rd_party/nanoarrow/flatcc.c:3105-3113 | after the whole old table the map is the one before |
| `RefMap.Map.constructor` | 3rd_party/nanoarrow/flatcc/flatcc_refmap.h:86-92 | an empty map without a table |
| `RefMap.Map.Slot` | 3rd_party/nanoarrow/flatcc.c:3132-3143 | the probe loop ends, at the slot of the address or at the empty slot where it belongs |
| `RefMap.Map.Find` | 3rd_party/nanoarrow/flatcc.c:3149-3168 | the reference last inserted for the address, 0 when there is none |
| `RefMap.Map.Insert` | 3rd_party/nanoarrow/flatcc.c:3121-3147 | inserts or replaces one entry and returns the reference; a null address is not stored |
| `RefMap.Map.Resize` | 3rd_party/nanoarrow/flatcc.c:3075-3119 | growing or shrinking keeps all entries and ends below the load factor |
| `RefMap.Map.Reset` | 3rd_party/nanoarrow/flatcc.c:3063-3069 | removes all entries and keeps the table |
| `RefMap.Map.Clear` | 3rd_party/nanoarrow/flatcc.c:3040-3046 | removes all entries and the table |
| `Bits.BitGet` | 3rd_party/nanoarrow/nanoarrow/nanoarrow.h:2639-2641 | 1 exactly when the bit is set |
| `Bits.PrecedingBit` | 3rd_party/nanoarrow/nanoarrow/nanoarrow.h:2577-2577 | the mask of the bits before a position |
| `Bits.TrailingBit` | 3rd_party/nanoarrow/nanoarrow/nanoarrow.h:2578-2578 | the mask of the bits from a position on |
| `Bits.SetBit` | 3rd_party/nanoarrow/nanoarrow/nanoarrow.h:2731-2734 | sets one bit to a value and no other |
| `Bits.BytesForBits` | 3rd_party/nanoarrow/nanoarrow/nanoarrow.h:2599-2601 | the least number of bytes that hold the bits |
| `Bits.FillsEvenly` | 3rd_party/nanoarrow/nanoarrow/nanoarrow.h:2736-2746 | the byte that a flag is spread to has the flag's value in every bit if and only if the flag is 0 or 1 |
| `Bits.BitsSetTo` | 3rd_party/nanoarrow/nanoarrow/nanoarrow.h:2736-2779 | changes exactly the bits of the range, for every offset and length, and no byte behind it |
| `Bits.MaskedCount` | 3rd_party/nanoarrow/nanoarrow/nanoarrow.h:2781-2824 | counting a masked byte counts the bits of the range in it |
| `Bits.BitCountSet` | 3rd_party/nanoarrow/nanoarrow/nanoarrow.h:2781-2824 | the number of set bits of the range, for every offset and length |
| `Bits.CountMany` | 3rd_party/nanoarrow/nanoarrow/nanoarrow.h:2807-2823 | the same over several bytes |
| `Bits.UnpackInt8` | 3rd_party/nanoarrow/nanoarrow/nanoarrow.h:2643-2680 | the bits of the range as 0 or 1, and nothing behind them |
| `Bitmap.PackedBit` | 3rd_party/nanoarrow/nanoarrow/nanoarrow.h:2625-2630 | packing eight values of 0 or 1 sets exactly the bits of the ones |
| `Bitmap.EvenPattern` | 3rd_party/nanoarrow/nanoarrow/nanoarrow.h:2736-2746 | for the flags 0 and 1 that pattern is a run of equal bits, from any position |
| `Bitmap.Bitmap.Reserve` | 3rd_party/nanoarrow/nanoarrow/nanoarrow.h:2837-2858 | makes room and keeps the bits |
| `Bitmap.Bitmap.AppendUnsafe` | 3rd_party/nanoarrow/nanoarrow/nanoarrow.h:2883-2888 | the bits are those before and then, for any flag, the pattern of the byte it is spread to: a run of equal bits for the flags 0 and 1 |
| `Bitmap.Bitmap.Append` | 3rd_party/nanoarrow/nanoarrow/nanoarrow.h:2875-2881 | the same, making room first |
| `Bitmap.Bitmap.AppendValidity` | 3rd_party/nanoarrow/nanoarrow/nanoarrow.h:3261-3270 | the first null makes a bitmap with a set bit for each element before; without a bitmap valid elements leave no trace |
| `Bitmap.Bitmap.Get` | 3rd_party/nanoarrow/nanoarrow/nanoarrow.h:2639-2641 | the bit appended |
| `Bitmap.Bitmap.AppendInt8Unsafe` | 3rd_party/nanoarrow/nanoarrow/nanoarrow.h:2890-2935 | the bits are those before and then the values, from any bit position |
| `Validity.SliceValidity` | c_src/from_arrow.hpp:78-93 | a slice exactly when there is a bitmap and a null; it holds the range at the returned bit offset and ends with its last byte |
| `Validity.SliceThenCopy` | c_src/to_arrow.hpp:21-51 | copying a slice gives the bits and null count of the original range |
| `Validity.CopiesAgree` | c_src/to_arrow.hpp:21-51 | two copies of equal bits, by bytes or bit by bit, agree on bits and nulls |
| `Validity.WriteArray.CopyValidity` | c_src/to_arrow.hpp:21-51 | appends the bits of the range and counts its nulls |
| `Validity.WriteArray.CopyBytes` | c_src/to_arrow.hpp:24-32 | the same for a range that starts a byte, whole bytes at a time |
| `Validity.WriteArray.CopyBits` | c_src/to_arrow.hpp:33-51 | the same for any range, bit by bit |
| `Numerals.ValueUnique` | 3rd_party/nanoarrow/nanoarrow.c:357-464 | a number has one representation by a given number of words |
| `Numerals.DecimalParts` | 3rd_party/nanoarrow/nanoarrow.c:437-461 | the text of a number is the text of its upper part and the padded digits of the lower one |
| `Numerals.NoLeadingZero` | 3rd_party/nanoarrow/nanoarrow.c:437-461 | a leading zero is written only for 0 |
| `Numerals.DecimalOfNumber` | 3rd_party/nanoarrow/nanoarrow.c:298-353 | digits without a leading zero are the text of their number |
| `Decimals.ScaleFits` | 3rd_party/nanoarrow/nanoarrow.c:267-296 | no intermediate result exceeds 64 bits and every carry fits 32 |
| `Decimals.ScaledValue` | 3rd_party/nanoarrow/nanoarrow.c:287-293 | one pass over the words multiplies and adds, modulo their range |
| `Decimals.MultiplyAdd` | 3rd_party/nanoarrow/nanoarrow.c:287-293 | the loop computes that product and sum, and touches no word above |
| `Decimals.ShiftAndAdd` | 3rd_party/nanoarrow/nanoarrow.c:267-296 | the words hold the number that the digits stand for, modulo their range |
| `Decimals.NegatedValue` | 3rd_party/nanoarrow/nanoarrow/nanoarrow.h:998-1016 | inverting every word and adding one is two's-complement negation of the whole array |
| `Decimals.WordDivision` | 3rd_party/nanoarrow/nanoarrow.c:408-431 | the two 32-bit steps give quotient and remainder of the word, within 64 bits |
| `Decimals.DivideBy1e9` | 3rd_party/nanoarrow/nanoarrow.c:408-431 | value before = value after times 10^9 + remainder, over the whole word array |
| `Decimals.NineSegments` | 3rd_party/nanoarrow/nanoarrow.c:397-431 | no value of up to 256 bits yields more than nine segments |
| `Decimals.NextTopWord` | 3rd_party/nanoarrow/nanoarrow.c:408-431 | when a division clears the top word, the word below it is not zero |
| `Decimals.ArrowDecimal.constructor` | 3rd_party/nanoarrow/nanoarrow/nanoarrow.h:946-960 | a decimal of the given width and word order; it is 0 |
| `Decimals.ArrowDecimal.Sign` | 3rd_party/nanoarrow/nanoarrow/nanoarrow.h:980-982 | -1 exactly for negative numbers, told by the top bit of the high word, in either word order |
| `Decimals.ArrowDecimal.OrderedWords` | 3rd_party/nanoarrow/nanoarrow/nanoarrow.h:946-960 | the words from low to high are the stored ones from the first on, or from the last on |
| `Decimals.ArrowDecimal.GetInt` | 3rd_party/nanoarrow/nanoarrow/nanoarrow.h:962-969 | the low word as a signed number, which is the whole number if that fits 64 bits |
| `Decimals.ArrowDecimal.SetInt` | 3rd_party/nanoarrow/nanoarrow/nanoarrow.h:984-994 | a signed 64-bit number, its sign extended over all words |
| `Decimals.ArrowDecimal.Negate` | 3rd_party/nanoarrow/nanoarrow/nanoarrow.h:998-1016 | the words, read from the first one on or from the last one on as the low index says, hold the negated number modulo their range |
| `Decimals.ArrowDecimal.SetDigits` | 3rd_party/nanoarrow/nanoarrow.c:298-353 | accepts exactly an optional sign and digits; the words, read from the first or from the last one on as the low index says, then hold the signed number modulo their range |
| `Decimals.ArrowDecimal.StoreWords` | 3rd_party/nanoarrow/nanoarrow.c:334-348 | joining 32-bit words keeps the value, stored from the first word on or from the last |
| `Decimals.ArrowDecimal.Magnitude` | 3rd_party/nanoarrow/nanoarrow.c:357-380 | a copy of the words, low one first, holds the magnitude, also of the most negative number |
| `Decimals.ArrowDecimal.Segments` | 3rd_party/nanoarrow/nanoarrow.c:382-431 | the segments are the number in base 10^9, the top one not zero |
| `Decimals.ArrowDecimal.WriteSegments` | 3rd_party/nanoarrow/nanoarrow.c:433-461 | the text appended is the number without leading zeros |
| `Decimals.ArrowDecimal.AppendDigits` | 3rd_party/nanoarrow/nanoarrow.c:357-464 | appends the canonical text of the signed number that the words hold, read from the first or from the last one on |
| `Decimals.TextReadsBack` | 3rd_party/nanoarrow/nanoarrow.c:298-353 | canonical text stands for the number it was made from |
| `Decimals.SignedOfWrapped` | 3rd_party/nanoarrow/nanoarrow.c:298-353 | within the signed range the words stand for the number itself |
| `Decimals.PrintThenParse` | 3rd_party/nanoarrow/nanoarrow.c:267-464 | printing any words and parsing the text restores the same words, for every bit pattern |
| `Decimals.ParseThenPrint` | 3rd_party/nanoarrow/nanoarrow.c:267-464 | parsing a number in range and printing it gives its canonical text |
| `Decimals.CanonicalText` | 3rd_party/nanoarrow/nanoarrow.c:298-353 | a text is its own canonical form if and only if it has no plus sign, no leading zero and no minus sign before 0 |
| `Metadata.KeysCompared` | 3rd_party/nanoarrow/nanoarrow.c:1984-2004 | the comparison is equality of keys if and only if no byte before the last one is zero |
| `Metadata.Reader.constructor` | 3rd_party/nanoarrow/nanoarrow.c:1919-1932 | a reader at the first pair; the null string has none |
| `Metadata.Reader.Read` | 3rd_party/nanoarrow/nanoarrow.c:1934-1962 | the next pair of the list, and nothing when all are read |
| `Metadata.SizeOf` | 3rd_party/nanoarrow/nanoarrow.c:1964-1982 | the length of the encoding |
| `Metadata.GetValue` | 3rd_party/nanoarrow/nanoarrow.c:1984-2013 | the value of the first pair with the key |
| `Metadata.HasKey` | 3rd_party/nanoarrow/nanoarrow.c:2015-2022 | whether some pair has the key |
| `Metadata.EntriesFirst` | 3rd_party/nanoarrow/nanoarrow.c:2030-2062 | the encoding is one entry after the other |
| `Metadata.FirstWords` | 3rd_party/nanoarrow/nanoarrow.c:2030-2062 | the encoding starts with the count; the first pair is its key's length, the key, its value's length and the value |
| `Metadata.EncodingUnique` | 3rd_party/nanoarrow/nanoarrow.c:1934-1962 | no two lists have the same encoding |
| `Metadata.Builder.constructor` | 3rd_party/nanoarrow/nanoarrow.c:2024-2028 | a copy that holds the same pairs |
| `Metadata.Builder.Append` | 3rd_party/nanoarrow/nanoarrow.c:2030-2062 | the buffer is the encoding of the pairs and the new one |
| `Metadata.Builder.SetInternal` | 3rd_party/nanoarrow/nanoarrow.c:2064-2116 | the buffer is rewritten pair by pair; a key that is not there is appended |
| `Metadata.Builder.Set` | 3rd_party/nanoarrow/nanoarrow.c:2124-2128 | the buffer is the encoding of the list with the key set |
| `Metadata.Builder.Remove` | 3rd_party/nanoarrow/nanoarrow.c:2130-2133 | the buffer is the encoding of the pairs with other keys |
| `Metadata.RemoveDeletesAll` | 3rd_party/nanoarrow/nanoarrow.c:2064-2116 | removing deletes every pair with the key and keeps the order of the others |
| `Metadata.RewriteLeavesOne` | 3rd_party/nanoarrow/nanoarrow.c:2064-2116 | rewriting a key that is there leaves it once, at its first position |
| `Metadata.SetLeavesOne` | 3rd_party/nanoarrow/nanoarrow.c:2124-2128 | setting leaves exactly one pair for the key, at its first position or at the end, and does not touch the others |
| `Metadata.SetThenGet` | 3rd_party/nanoarrow/nanoarrow.c:1984-2128 | the value set is the value found |
| `ArrayViews.AssertIncreasing` | 3rd_party/nanoarrow/nanoarrow.c:3391-3421 | the loop accepts exactly offsets that never go back |
| `ArrayViews.AssertRunsIncrease` | 3rd_party/nanoarrow/nanoarrow.c:3537-3556 | the loop accepts exactly strictly increasing run ends |
| `ArrayViews.ValidateMinimal` | 3rd_party/nanoarrow/nanoarrow.c:2949-3163 | walking the tree gives the verdict and the sizes of minimal validation |
| `ArrayViews.ValidateDefault` | 3rd_party/nanoarrow/nanoarrow.c:3165-3363 | the same for default validation, which repeats the minimal one at every level |
| `ArrayViews.ValidateFull` | 3rd_party/nanoarrow/nanoarrow.c:3459-3569 | the same for full validation |
| `ArrayViews.Validate` | 3rd_party/nanoarrow/nanoarrow.c:3571-3588 | each level includes the ones before it |
| `ArrayViews.RangesInside` | 3rd_party/nanoarrow/nanoarrow.c:3391-3421 | between checked ends, offsets that never go back keep every element inside |
| `ArrayViews.RunFound` | 3rd_party/nanoarrow/nanoarrow.c:3537-3556 | every logical position before the last run end is in some run |
| `ArrayViews.RunUnique` | 3rd_party/nanoarrow/nanoarrow.c:3537-3556 | and in no other |
| `ArrayViews.RunsCover` | 3rd_party/nanoarrow/nanoarrow.c:3537-3556 | so every position of a validated run-end encoded array is in exactly one run, whose index is below the values length |
| `ArrayViews.BitmapSafe` | 3rd_party/nanoarrow/nanoarrow.c:2968-3024 | an accepted bitmap covers every element if and only if it is not one of known size 0 beside a null count of 0 and elements |
| `ArrayViews.OwnSafe` | 3rd_party/nanoarrow/nanoarrow.c:3459-3569 | what full validation accepts of one array is safe to read if and only if the caller has ruled that out and, for runs, missing run ends |
| `ArrayViews.ReadableKept` | 3rd_party/nanoarrow/nanoarrow.c:2949-3163 | validation does not change that condition, at any depth |
| `ArrayViews.AcceptedIsSafe` | 3rd_party/nanoarrow/nanoarrow.c:3571-3588 | a view accepted at the full level can be read recursively without leaving any buffer or child, if and only if that condition holds throughout |
| `ArrayLayout.MinimalAccepts` | 3rd_party/nanoarrow/nanoarrow.c:2949-3163 | minimal validation accepts a view if and only if, at every level, its end fits 64 bits, known sizes cover it and the children have the lengths required, for every offset |
| `ArrayLayout.DefaultAccepts` | 3rd_party/nanoarrow/nanoarrow.c:3165-3363 | default validation accepts exactly those whose first and last offsets or run ends lie within their limits besides |
| `ArrayLayout.FullyAccepts` | 3rd_party/nanoarrow/nanoarrow.c:3571-3588 | full validation accepts exactly those whose offsets never go back and whose run ends increase besides |
| `ArrayLayout.AcceptedCompletes` | 3rd_party/nanoarrow/nanoarrow.c:3571-3588 | what an accepted view becomes: itself, with unknown sizes set to the least ones that cover it |
| `ArrayLayout.MinimalAgain` | 3rd_party/nanoarrow/nanoarrow.c:2949-3163 | minimal validation of what it has returned changes nothing |
| `ArrayLayout.SliceAccepted` | 3rd_party/nanoarrow/nanoarrow.c:3571-3588 | a slice of an accepted view is accepted |
| `ArrayViews.EmptyBitmapIsUnsafe` | 3rd_party/nanoarrow/nanoarrow.c:2984-2986 | an accepted view that is not safe: one element and a bitmap of known size 0 beside a null count of 0 |
| `ArrayViews.NoRunIsUnsafe` | 3rd_party/nanoarrow/nanoarrow.c:3136-3152 | another one: a run-end encoded array of length 1 without any run |
| `ArrayAppend.ReadKept` | 3rd_party/nanoarrow/nanoarrow/nanoarrow.h:4048-4229 | appending later does not change what is read of earlier elements |
| `ArrayAppend.ReadSliced` | 3rd_party/nanoarrow/nanoarrow/nanoarrow.h:3948-4101 | element i of a slice that starts at o is element o + i of the whole array, nulls included |
| `ArrayAppend.ContentsSliced` | 3rd_party/nanoarrow/nanoarrow/nanoarrow.h:4048-4229 | the contents of a slice are that part of the contents |
| `ArrayAppend.ContentsKept` | 3rd_party/nanoarrow/nanoarrow/nanoarrow.h:3196-3433 | the contents of an array are the first part of what it becomes |
| `ArrayAppend.BitmapGrows` | 3rd_party/nanoarrow/nanoarrow/nanoarrow.h:3261-3270 | the first null makes a bitmap with a set bit for every element before; new bits say which elements are null |
| `ArrayAppend.BitmapExtends` | 3rd_party/nanoarrow/nanoarrow/nanoarrow.h:3261-3270 | its bits are those that the bitmap's own append leaves in the bytes |
| `ArrayAppend.IntRange` | 3rd_party/nanoarrow/nanoarrow/nanoarrow.h:3327-3433 | the numbers a width takes are those of two's complement, or from 0, in that many bits |
| `ArrayAppend.EmptyContinues` | 3rd_party/nanoarrow/nanoarrow/nanoarrow.h:3177-3317 | appending nulls or empty elements, and empty elements below, keeps what was there, and keeps the whole tree in order if and only if no bool array below gets more bits than the buffer grown for one more has |
| `ArrayAppend.OneFits` | 3rd_party/nanoarrow/nanoarrow/nanoarrow.h:3177-3194 | a single one always fits where no fixed-size list is above the bools |
| `ArrayAppend.NinthBoolDoesNotFit` | 3rd_party/nanoarrow/nanoarrow/nanoarrow.h:3177-3194 | nine of them do not fit a new bool array |
| `ArrayAppend.ReadAppended` | 3rd_party/nanoarrow/nanoarrow/nanoarrow.h:3196-3317 | a null reads as nothing; an empty element reads as the empty element of its kind, with what children that were ahead hold already |
| `ArrayAppend.AlignedIsEmpty` | 3rd_party/nanoarrow/nanoarrow/nanoarrow.h:3196-3317 | where no child is ahead of its parent that is the empty element of the whole shape |
| `ArrayAppend.EmptyAppends` | 3rd_party/nanoarrow/nanoarrow/nanoarrow.h:3319-3325 | the contents are those before and then the nulls or empty elements |
| `ArrayAppend.IntAppends` | 3rd_party/nanoarrow/nanoarrow/nanoarrow.h:3327-3379 | a signed number is appended exactly when the type takes numbers and it is in range; a bool array stores whether it is 0 |
| `ArrayAppend.UIntAppends` | 3rd_party/nanoarrow/nanoarrow/nanoarrow.h:3381-3433 | the same for unsigned numbers |
| `ArrayAppend.BytesAppend` | 3rd_party/nanoarrow/nanoarrow/nanoarrow.h:3529-3618 | a byte string is appended exactly when the type takes its length and 32-bit offsets do not overflow |
| `ArrayAppend.ElementFinishes` | 3rd_party/nanoarrow/nanoarrow/nanoarrow.h:3724-3770 | an element is completed exactly when its children received what it takes; it reads as what they received |
| `ArrayAppend.NullCount` | 3rd_party/nanoarrow/nanoarrow/nanoarrow.h:3313-3316 | the null count is the number of nulls a reader finds |
| `ArrayAppend.BuiltIsAccepted` | 3rd_party/nanoarrow/nanoarrow.c:2637-2663 | whatever any run of appends has built is accepted at the full level as it is, and safe to read |
| `ArrayAppend.BuiltSlices` | 3rd_party/nanoarrow/nanoarrow.c:3571-3588 | so is every slice of it, which reads as that part of the contents |
| `ArrayAppend.NewIsBuilt` | 3rd_party/nanoarrow/nanoarrow/nanoarrow.h:3115-3158 | an array ready for appending is empty at every level |
| `ArrayAppend.PutContinues` | 3rd_party/nanoarrow/nanoarrow/nanoarrow.h:3327-3433 | appending to an array inside the tree keeps the tree in order and what the arrays above it read |
| `ArrayAppend.ArrayBuilder.constructor` | 3rd_party/nanoarrow/nanoarrow/nanoarrow.h:3115-3158 | a tree of empty arrays of the shape |
| `ArrayAppend.ArrayBuilder.AppendInt` | 3rd_party/nanoarrow/nanoarrow/nanoarrow.h:3327-3379 | appends the number at its place in the tree or refuses it and changes nothing |
| `ArrayAppend.ArrayBuilder.AppendUInt` | 3rd_party/nanoarrow/nanoarrow/nanoarrow.h:3381-3433 | the same for unsigned numbers |
| `ArrayAppend.ArrayBuilder.AppendBytes` | 3rd_party/nanoarrow/nanoarrow/nanoarrow.h:3529-3618 | the same for byte strings |
| `ArrayAppend.ArrayBuilder.FinishElement` | 3rd_party/nanoarrow/nanoarrow/nanoarrow.h:3724-3770 | completes the list, fixed-size list or struct element of what the children received, or refuses |
| `ArrayAppend.ArrayBuilder.AppendNull` | 3rd_party/nanoarrow/nanoarrow/nanoarrow.h:3319-3321 | the contents get nulls, where their bits fit |
| `ArrayAppend.ArrayBuilder.AppendEmpty` | 3rd_party/nanoarrow/nanoarrow/nanoarrow.h:3323-3325 | the contents get empty elements, where their bits fit |
| `ArrayAppend.ArrayBuilder.FinishBuilding` | 3rd_party/nanoarrow/nanoarrow.c:2637-2663 | succeeds at every level after any run of operations; the result is safe to read and its null count right |
| `BinaryViews.InlineDecodes` | 3rd_party/nanoarrow/nanoarrow/nanoarrow.h:3540-3543 | a short byte string is decoded from the view itself |
| `BinaryViews.RefDecodes` | 3rd_party/nanoarrow/nanoarrow/nanoarrow.h:3544-3564 | a long one from its place in the variadic buffers; the view repeats its first four bytes |
| `BinaryViews.DecodeKept` | 3rd_party/nanoarrow/nanoarrow/nanoarrow.h:4034-4046 | growing buffers do not change what earlier views decode to |
| `BinaryViews.ElementAppended` | 3rd_party/nanoarrow/nanoarrow/nanoarrow.h:3534-3565 | appending a view adds its value and keeps the others |
| `BinaryViews.NothingBehind` | 3rd_party/nanoarrow/nanoarrow/nanoarrow.h:3544-3564 | no view leads to a buffer that is not there |
| `BinaryViews.BlocksGrow` | 3rd_party/nanoarrow/nanoarrow/nanoarrow.h:3544-3564 | every buffer stays the concatenation of the values that lead to it, is larger than a block only if it is one value, and is followed by another only when the value that opened it did not fit |
| `BinaryViews.ViewBuilder.constructor` | 3rd_party/nanoarrow/nanoarrow/nanoarrow.h:3115-3158 | no elements and no variadic buffers |
| `BinaryViews.ViewBuilder.Place` | 3rd_party/nanoarrow/nanoarrow/nanoarrow.h:3544-3564 | a long value goes to the end of the last buffer, or of a new one exactly when it would outgrow a block |
| `BinaryViews.ViewBuilder.AppendBytes` | 3rd_party/nanoarrow/nanoarrow/nanoarrow.h:3529-3618 | the sequence gets the byte string; only long ones touch the variadic buffers |
| `BinaryViews.ViewBuilder.AppendNull` | 3rd_party/nanoarrow/nanoarrow/nanoarrow.h:3319-3321 | the sequence gets nulls |
| `BinaryViews.ViewBuilder.IsNull` | 3rd_party/nanoarrow/nanoarrow/nanoarrow.h:3948-3962 | whether the element is null |
| `BinaryViews.ViewBuilder.GetBytes` | 3rd_party/nanoarrow/nanoarrow/nanoarrow.h:4034-4046 | the byte string appended |
| `BinaryViews.ViewBuilder.DecodeAt` | c_src/from_arrow.hpp:44-70 | the same by the decoder of the NIF, which reads the view bytes itself, nulls included |
| `BinaryViews.ViewBuilder.StringViews` | c_src/from_arrow.hpp:28-74 | the whole range of elements as appended |
| `BinaryViews.ViewBuilder.ViewWellFormed` | 3rd_party/nanoarrow/nanoarrow/nanoarrow.h:3534-3565 | every view has its length and prefix, and a long one lies inside its buffer at its offset |
| `BinaryViews.ViewBuilder.BufferWellFormed` | 3rd_party/nanoarrow/nanoarrow.c:2604-2626 | a buffer larger than a block is the value of exactly one element, a buffer and the first value of the next one do not fit a block together, and the stored sizes are right |

## Left out

Contracts that promise less than the code does, or ask for more:

- FlatBuilder.Builder.CreateString: an emission of 2^32 bytes or more, which the code does not refuse, is excluded by `StringFits`; likewise by `VectorFits` and `OffsetsFit` in `CreateVector`, `CreateOffsetVector` and the `End` calls.
- FlatBuilder.Builder.TableAdd: a table stays below 65536 bytes, which the code asserts only when the table is ended (flatcc.c:1358). The same holds for `TableAddOffset`.
- FlatBuilder.Builder.EndTable: after a failed emission only the graph and its layout are stated; the builder is to be cleared then. The hash, the number of the buffer and whether vtables are clustered are parameters.
- FlatBuilder.Builder.CreateCachedVtable: after a failed emission the code leaves a half-made descriptor in its chain, which is not modelled; hash, buffer number and clustering are parameters.
- FlatBuilder.Builder.AlignEnd: pads a top-level buffer; a nested one is not padded.
- FlatBuilder.BuiltBufferRoundTrip: tables and vtables lie below 2^31 in the buffer (`FlatRoundTrip.InReach`); above it the verifier refuses what was built (`FlatAcceptance.FarVtableRejected`), and only the root's refusal is carried through to the whole buffer.
- FlatRuns.Run: the room it asks for counts the most padding and a new vtable for every table, so runs that fit more tightly are not covered; it builds strings and vectors by direct calls, and the hash of each vtable is given.
- FlatVtableCache.VtableCache.Insert: descriptors and copies are named by index, and running out of memory is left out.
- FlatStacks.TableStack.End: the entries are copied out and cleared before the vtable is looked up, where the code clears them afterwards.
- FlatStacks.DataStack.PushCopy: reserving and copying is one step; places handed out for filling in later are left out, also by `PushField`, `PushOffsetField` and the builder's `TableAdd` and `ExtendVector`.
- Emitter.Emitter.AddPage: a page is linked in before the cursors move to it; 32-bit page offsets do not wrap, and allocation always succeeds.
- RefMap.Map.Insert: the hash is a parameter, addresses are numbers, and sizes do not overflow.
- Bits.UnpackInt8: whole bytes are unpacked bit by bit through `Bits.BitGet`; the 32-bit variants are left out.
- Bits.BitCountSet: the table of byte counts stands for its meaning, the number of set bits.
- Bitmap.Bitmap.AppendInt8Unsafe: values are 0 or 1, as the header file asks (nanoarrow.h:1824), and enough of them are given to fill a partial byte, since the code reads them even when fewer are appended.
- Decimals.ArrowDecimal.SetDigits: the text is not empty, since the code reads its first character; `strtoll` and `snprintf` stand for `Numerals.Number`, `Decimal` and `Digits`.
- Metadata.Reader.constructor: the bytes are the encoding of some list, since the code follows the sizes in them unchecked.
- Metadata.Builder.Set: sizes and counts stay below 2^31, as in the whole module, since the code casts them to 32 bits; removing the last pair leaves the null string's list.
- ArrayViews.AcceptedIsSafe: cells are typed instead of bytes, products of lengths and sizes do not wrap at 64 bits, and buffers outside the memory modelled read as 0.
- ArrayViews.ValidateMinimal: numbers, bools, fixed-size and variable binary, lists, fixed-size lists, structs and run ends; unions, dictionaries and view layouts are left out, also in `ValidateDefault` and `ValidateFull`.
- ArrayAppend.ArrayBuilder.AppendInt: integer and bool arrays; numbers put into float and half float arrays are left out, also in `AppendUInt`.
- ArrayAppend.ArrayBuilder.AppendNull: only where the bits fit, and likewise `AppendEmpty`; otherwise the code writes behind the buffer.
- ArrayAppend.ArrayBuilder.FinishBuilding: arrays are a tree of values that operations replace at a path, so sharing of memory between arrays is not captured; lengths are 64-bit. Floats, intervals, decimals, unions, dictionaries and run ends are not appended to.
- BinaryViews.ViewBuilder.StringViews: decodes what the builder made; for foreign arrays the code checks neither buffer indices nor offsets, and counts the sizes buffer among the data buffers.

Parts of the repository:

- Nested FlatBuffers, size prefixes, embedded buffers, structs as objects and as union members, union vectors, nested and typed roots, user frames, cloning.
- Finalizing and copying buffers through the builder, the allocator's shrinking on reset, page recycling, endian conversion, and every allocation failure.
- Floats and half floats, intervals, decimals, dictionaries, unions and view arrays in validation and in the append operations; reading run-end encoded values.
- Schemas, format strings, chunk resolution, the IPC reader and writer.
- The Elixir term conversions, the NIF functions, the driver loader, and boolean, list and dictionary columns through the NIF.
