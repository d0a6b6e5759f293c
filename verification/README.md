# flutter_rust_bridge: verified models of its runtime protocols

The runtime of flutter_rust_bridge lets Dart and Rust share objects, calls, bytes and handles. This
project models the parts of it where several threads, several owners or two languages have to agree,
and proves what they promise, for every input and every run.

- **Automatic locking** (`LockableOrder`, `GuardProtocol`, `DeadlockFreedom`, `Serializability`,
  `SerialReads`). Each
  opaque object has an order. A call sorts its arguments by order, refuses conflicting borrows of one
  object, takes the guards one by one, runs its body, and drops the guards. The sort, the check, the
  counter and the loop that fills the guards are methods. Concurrent calls are a transition system whose
  grant rule is a parameter: grant whatever is compatible, or serve the requests for an object in their
  order, as the tokio lock does that the repository uses. Proved: exclusion in every reachable state;
  every run is finite; no run gets stuck under the first rule; under the second, runs can get stuck for
  exactly those programs in which one call borrows an object shared twice in a row and another call can
  want it mutably in between; and every interleaving of bodies has the results and the memory of running
  the bodies one after the other, in the order in which they got their last guard, however long each
  waits before it starts its body; in that order every read returns the value written last before it.
- **The object pool** (`MoiArcPool`, `MoiArcInterleaving`, `MoiArcCascades`, `MoiArcRefinement`,
  `ArcBehaviour`). Handles,
  raw ids, the pool's counts and the inner `std::Arc` under every interleaving, with the two halves of
  dropping a handle kept apart, and values that own handles into the same pool; and, one thread at a
  time, a refinement of `StdArc`: the same replies and the same destructions, cascades included.
- **The SSE codec** (`SseFormat`, `SseRoundTrip`, `SseReencode`, `SseStream`). One description of the types, values and
  bytes; serializer and deserializer are classes that move a cursor and are proved equal to it. Proved:
  decoding gives the value back exactly when every length fits an `i32`; encoding gives the bytes back
  exactly when their flags and lengths are as the encoder writes them; encodings parse in one way only; a call's arguments arrive exactly when the announced length is right.
- **Ownership across the language boundary** (`DartOpaqueLifecycle`, `DartFnCalls`, `StreamClosing`,
  `LeakedBuffers`). Where a persistent handle can be, which output answers which call, when a stream is
  closed, and that leaked byte buffers behave like plain byte sequences.
- **Two transformers** (`AttrEncoder`, `AttrDecoding`, `AttrSettling`; `NamespacePaths`). The token scan
  that hides `#[frb..]` attributes, and module paths kept as one string; for both, exactly which inputs
  come back, and for the scan, exactly which streams a second conversion leaves alone.

Where the code promises more than it keeps, the project has both the exact condition and an input:

- `README.md:33` of the repository calls the locking deadlock-free. With a first-in-first-out lock that is
  so exactly for the programs that `DeadlockFreedom.FifoStuckExactlyIfProne` names; two shared borrows of
  one object pass the borrow check and can get stuck beside a mutable one.
- `MoiArc::try_unwrap` can panic although its count is one, between the two halves of another handle's
  drop (`MoiArcInterleaving.UnwrapCanPanic`); one thread alone never sees this.
- A `new` that meets a taken id panics, and then destroys the replaced value while it holds the pool lock,
  exactly when nothing else owned that value (`MoiArcInterleaving.DestroyedExactlyByLastRelease`); an
  object held by a raw id alone meets this (`MoiArcInterleaving.CollisionCanDestroyUnderLock`).
- Component lists with a colon at the end of a component, or with one empty component, do not come back
  from a `Namespace`; a stripped prefix does not always add up to the original.
- Outside encoded attributes, a `#` that no group follows is moved or lost by the attribute scan, and a
  second conversion can change the stream again.
- A persistent handle can be deleted in a foreign isolate exactly when its port belongs to one. Generated
  code always passes the encoding isolate's own port, so this takes a direct call of
  `frb_dart_opaque_dart2rust_encode` with another isolate's port.
- A call still waiting when its 32-bit id comes round again is cancelled.

`dafny verify dfyconfig.toml` checks the whole project.

## Model

| member | source | states |
|---|---|---|
| LockableOrder.OrderCounter.Fresh | frb_rust/src/lockable/order.rs:4-13 | The k-th call, counted from zero, returns k wrapped to 64 bits and moves the counter on |
| LockableOrder.OrdersCollideExactlyOnWrap | frb_rust/src/rust_auto_opaque/inner.rs:11-18 | Two objects get the same order exactly when a multiple of 2^64 constructions lies between them |
| LockableOrder.ImmediateInvalidBorrowChecker.Update | frb_rust/src/lockable/immediate_invalid_borrow_checker.rs:27-33 | The first borrow of an object is fine; a later one is fine unless it or an earlier one is mutable |
| LockableOrder.CheckNoImmediateInvalidBorrow | frb_rust/src/lockable/immediate_invalid_borrow_checker.rs:3-33 | On a list sorted by order, the one pass accepts exactly when no two entries share an object with one of them mutable |
| LockableOrder.VerdictIgnoresArrangement | frb_rust/src/lockable/order_computer.rs:5-14 | The verdict is the same for every arrangement of the same entries, so the unstable sort does not matter |
| LockableOrder.SortUnstableByOrder | frb_rust/src/lockable/order_computer.rs:5-9 | In place: sorted by order, and the same entries as before |
| LockableOrder.LockableComputeDecodeOrder | frb_rust/src/lockable/order_computer.rs:4-17 | Returns an order exactly when the input, as given, is free of conflicts; the order is a permutation of the indices along which objects ascend and guards never conflict |
| LockableOrder.SortedIndicesAreAccepted | frb_rust/src/lockable/order_computer.rs:16 | The same for the indices of any sorted arrangement, whatever the sort does with equal orders |
| LockableOrder.AcquireGuards | frb_example/rust_ui_todo_list/src/frb_generated.rs:159-175 | The generated loop fills every argument's guard with a borrow of that argument's object, as mutable as asked for, so no `unwrap` fails, and takes the locks in the computed order |
| GuardProtocol.RunKeepsInv | frb_example/rust_ui_todo_list/src/frb_generated.rs:159-179 | In every reachable state, under either grant rule, two guards held at once never conflict, and guards are all taken before the body and dropped after it |
| GuardProtocol.NobodyOvertakes | frb_rust/src/rust_async/io.rs:3-4 | Under the queueing rule, a call that asks for an object while another one waits for it is not served first, in any run |
| DeadlockFreedom.NeverStuckIfCompatible | frb_rust/src/lockable/order_computer.rs:4-17 | With locks that grant whatever is compatible, no reachable state is stuck, shared borrows of one object included |
| DeadlockFreedom.FifoStuckExactlyIfProne | frb_rust/src/lockable/implementor/rust_auto_opaque.rs:23-47 | With first-in-first-out locks, no reachable state is stuck if and only if no call borrows an object shared twice in a row while another call borrows it mutably and what the two take before does not conflict |
| DeadlockFreedom.DistinctArgumentsNeverStuck | README.md:33 | Under either rule, calls whose arguments are distinct objects never get stuck |
| DeadlockFreedom.SharedTwiceCanGetStuck | frb_rust/src/lockable/immediate_invalid_borrow_checker.rs:27-33 | A call with the same object shared twice beside a mutable one: both pass the check, and a stuck state is reachable |
| DeadlockFreedom.RunLength | frb_example/rust_ui_todo_list/src/frb_generated.rs:159-179 | Steps taken plus work left is constant, so every run is finite and a run is complete exactly when it has a known length |
| DeadlockFreedom.DeadlockedIsProne | frb_rust/src/rust_async/io.rs:3-4 | Every stuck state that the invariant allows is under the first-in-first-out rule; in its queue a call waits mutably for an object that another one holds shared, and that one waits behind it for a second shared guard |
| Serializability.RunIsSerial | frb_example/rust_ui_todo_list/src/frb_generated.rs:159-179 | At every point of every run, memory and what each body has read are those of running the portions done so far one after the other, in the order of the last grants, whenever the bodies started |
| Serializability.FinishedRunsAreSerial | frb_example/rust_ui_todo_list/src/frb_generated.rs:159-179 | A finished run leaves the memory and gives the results of running all bodies alone, each exactly once, in the order in which the calls got their last guard |
| Serializability.MaximalRunsFinishSerially | frb_example/rust_ui_todo_list/src/frb_generated.rs:159-179 | Unless the program is prone to deadlock under the queueing rule, a run that cannot go on has finished every call, after a known number of steps, and is serial |
| SerialReads.EveryReadSeesTheLastWrite | frb_example/rust_ui_todo_list/src/frb_generated.rs:159-179 | At every point of every run, with the accesses of the bodies put in the order of the last grants: each read returned the value written last before it to its object, or the first contents, and each object holds the value of its last write |
| SerialReads.FinishedHistoryIsComplete | frb_example/rust_ui_todo_list/src/frb_generated.rs:159-179 | In a finished run that order has every call once, and every access of its body |
| SerialReads.LastWrittenMeans | frb_example/rust_ui_todo_list/src/frb_generated.rs:159-179 | The value written last is that of a write which no other write to the object follows; without a write it is the first contents |
| MoiArcPool.MoiArcPoolInner.NextId | frb_rust/src/generalized_arc/moi_arc.rs:174-190 | Hands out the ids 1 to 2147483600 in turn and starts again |
| MoiArcPool.IdsRepeatExactlyAfterACycle | frb_rust/src/generalized_arc/moi_arc.rs:174-190 | Two ids are equal exactly when a multiple of 2147483600 lies between them; none is zero |
| MoiArcPool.MoiArcPoolInner.New | frb_rust/src/generalized_arc/moi_arc.rs:37-49 | Inserts a value with count one under the next id, and tells whether the id was free |
| MoiArcPool.MoiArcPoolInner.IncrementStrongCount | frb_rust/src/generalized_arc/moi_arc.rs:114-117 | Adds one to an existing count below the 32-bit maximum; otherwise panics and changes nothing |
| MoiArcPool.MoiArcPoolInner.DecrementStrongCountRaw | frb_rust/src/generalized_arc/moi_arc.rs:126-137 | Takes one off and hands the entry out when none is left |
| MoiArcInterleaving.RunKeepsInv | frb_rust/src/generalized_arc/moi_arc.rs:18-137 | In every interleaving, each pooled count is the number of handles and raw ids, each inner Arc's count the number of its owners, and no value is destroyed twice |
| MoiArcInterleaving.PoolCountsReferences | frb_rust/src/generalized_arc/moi_arc.rs:58-73 | Every handle and raw id finds its own object in the pool, counted right and not destroyed |
| MoiArcInterleaving.NothingIsLeaked | frb_rust/src/generalized_arc/moi_arc.rs:119-137 | When all handles, raw ids and drops under way are gone, the pool and the heap are empty |
| MoiArcInterleaving.UnwrapSucceedsExactlyWhen | frb_rust/src/generalized_arc/moi_arc.rs:65-69 | The inner `unwrap` succeeds exactly when nothing else of that object is between its decrement and its release |
| MoiArcInterleaving.UnwrapCanPanic | frb_rust/src/generalized_arc/moi_arc.rs:58-73 | A run of two threads in which it panics although the count was one |
| MoiArcInterleaving.DestroyedExactlyByLastRelease | frb_rust/src/generalized_arc/moi_arc.rs:119-124 | Values are destroyed only by releasing the last inner Arc, never in a step that holds the pool lock, except by a `new` that meets a taken id: it destroys the replaced value under the lock exactly when nobody else owns it |
| MoiArcInterleaving.CollisionCanDestroyUnderLock | frb_rust/src/generalized_arc/moi_arc.rs:42-49 | A run of 2147483600 allocations after which `new` destroys a value under the lock |
| MoiArcCascades.OwnedObjectsLive | frb_rust/src/generalized_arc/moi_arc.rs:119-124 | In every interleaved run without a reused id, with values that own handles, whatever a living value owns is pooled, allocated and not destroyed, and no value is destroyed twice |
| MoiArcCascades.CascadesLeaveNothing | frb_rust/src/generalized_arc/moi_arc.rs:119-124 | In such a run, when the only handles left are those inside values, there are no values, no pool entries and no handles |
| MoiArcCascades.ValuesOwnWhatTheyWereMadeWith | frb_rust/src/generalized_arc/moi_arc.rs:37-56 | In every such run, the value made by a `new` owns, as long as it is allocated, exactly the handles it was made with; what is not allocated owns none |
| MoiArcCascades.OwnedHandlesAreOutOfReach | frb_rust/src/generalized_arc/moi_arc.rs:119-124 | While that value is allocated, no step of any thread can drop, unwrap, turn into a raw id or give away one of those handles |
| MoiArcInterleaving.CollidesExactlyWhen | frb_rust/src/generalized_arc/moi_arc.rs:42-49 | The duplicate assertion fires exactly when an object made a multiple of 2147483600 earlier is still pooled |
| MoiArcRefinement.MoiArcRefinesStdArc | frb_rust/src/generalized_arc/moi_arc.rs:18-138 | For every legal sequential run, MoiArc panics exactly on a reused id or an overflowing count, and otherwise gives the replies and the destructions of StdArc, in the same order, each value once and none still referred to |
| MoiArcRefinement.OpMatches | frb_rust/src/generalized_arc/std_arc.rs:13-83 | The same for a single operation from related states, cascades included |
| MoiArcRefinement.DropAllRefines | frb_rust/src/generalized_arc/moi_arc.rs:119-124 | Dropping a list of handles, with everything their values own, ends, and does in the pool what it does with plain counts |
| ArcBehaviour.SimpleDrop | frb_rust/src/generalized_arc/base_arc.rs:58-65 | The only handle can be looked at, and dropping it destroys the value |
| ArcBehaviour.SimpleClone | frb_rust/src/generalized_arc/base_arc.rs:67-80 | Of two handles, dropping either destroys nothing |
| ArcBehaviour.UnwrapOfOne | frb_rust/src/generalized_arc/base_arc.rs:82-110 | A sole handle gives the value up, without destroying it |
| ArcBehaviour.UnwrapOfTwo | frb_rust/src/generalized_arc/base_arc.rs:92-120 | One of two is refused; `try_unwrap` leaves both, `into_inner` drops its own |
| ArcBehaviour.RawAndBack | frb_rust/src/generalized_arc/base_arc.rs:122-153 | A raw id keeps the value alive and becomes a handle again |
| ArcBehaviour.CountUp | frb_rust/src/generalized_arc/base_arc.rs:155-187 | An incremented count keeps the value alive when the handle goes |
| ArcBehaviour.CountDown | frb_rust/src/generalized_arc/base_arc.rs:189-202 | A decrement takes it back, and destroys the value at the last |
| ArcBehaviour.OwnerGoesFirst | frb_rust/src/generalized_arc/moi_arc.rs:119-124 | A value that owns the only handle of another is destroyed before it |
| SseRoundTrip.RoundTrip | frb_example/dart_minimal/rust/src/frb_generated.rs:478-607 | A typed value with lengths that fit, structs and enums that contain themselves included, encoded anywhere in a buffer, is decoded there and the cursor stops behind it |
| SseRoundTrip.RoundTripExactlyWhenLengthsFit | frb_example/dart_minimal/rust/src/frb_generated.rs:689-800 | A typed value followed by any bytes comes back if and only if every list and string in it has a length an `i32` can hold |
| SseReencode.EncodingGivesTheBytesBackExactlyWhen | frb_example/dart_minimal/rust/src/frb_generated.rs:689-800 | Whatever bytes a value was decoded from, encoding it gives the same bytes if and only if every flag among them is 0 or 1 and no length is negative |
| SseReencode.EncodingsArePlain | frb_example/dart_minimal/rust/src/frb_generated.rs:747-800 | Every encoding has such flags and lengths |
| SseRoundTrip.DecodedIsGood | frb_example/rust_ui_todo_list/src/frb_generated.rs:719-763 | Whatever the bytes, a value that decoding returns has its type and lengths an `i32` can hold |
| SseRoundTrip.PrefixFree | frb_example/dart_minimal/rust/src/frb_generated.rs:64-73 | Two argument lists of the same types whose encodings start the same buffer are equal |
| SseRoundTrip.ArgsArriveExactlyWhenLengthIsRight | frb_rust/src/codec/sse.rs:106-126 | The final cursor check passes exactly when the announced length is the sum of the encoded sizes, whatever slack follows |
| SseRoundTrip.MessagesArrive | frb_rust/src/for_generated/boilerplate.rs:99-119 | Success, error, close and panic messages are each read back with their action and payload, and end where the payload ends |
| SseStream.SseSerializer.EncodeValue | frb_example/dart_minimal/rust/src/frb_generated.rs:689-800 | Appends exactly the encoding of the value to the buffer |
| SseStream.SseDeserializer.DecodeValue | frb_example/dart_minimal/rust/src/frb_generated.rs:478-607 | Returns what the decoder of the format returns at the cursor, and leaves the cursor behind it |
| SseStream.SseDeserializer.DecodeItems | frb_example/dart_minimal/rust/src/frb_generated.rs:501-511 | The push loop reads exactly the announced number of elements, in order, or fails at the first that fails |
| SseStream.SendPanic | frb_rust/src/codec/sse.rs:19-31 | The hand-written panic body equals the generated string encoding |
| SseStream.SendAndReceive | frb_rust/src/codec/sse.rs:94-131 | Arguments serialized by one side and announced with their length are received unchanged by the other |
| DartOpaqueLifecycle.DartOpaqueNonClone.Drop | frb_rust/src/dart_opaque/non_clone.rs:57-92 | Empties the value; a full one is deleted at home, elsewhere sent if the port is open and lost if it is not |
| DartOpaqueLifecycle.DartOpaqueNonClone.IntoInner | frb_rust/src/dart_opaque/non_clone.rs:36-46 | Gives the handle at home; elsewhere panics, and the handle is sent if the port is open and lost if it is not |
| DartOpaqueLifecycle.EachHandleIsAtOnePlace | frb_rust/src/dart_opaque/non_clone.rs:36-110 | In every run a handle is at exactly one place: shared, owned by the last sharer's thread, in flight, deleted, taken out, or lost by a failed post |
| DartOpaqueLifecycle.IntoInnerExactlyWhenAlone | frb_rust/src/dart_opaque/mod.rs:47-50 | Taking the inner value goes ahead exactly when no clone and no raw pointer shares it; else nothing changes |
| DartOpaqueLifecycle.DeletedOnceAndNeverUsedAfter | frb_rust/src/dart_opaque/non_clone.rs:57-110 | No event of a handle follows its deletion |
| DartOpaqueLifecycle.UsedAtHomeOnly | frb_rust/src/dart_opaque/boxes/guarded_box.rs:44-55 | Handles are used and taken out only in the isolate that made them |
| DartOpaqueLifecycle.NothingIsLeaked | frb_rust/src/dart_opaque/non_clone.rs:71-92 | When all shares are gone and all messages delivered, a handle neither taken out nor refused by its port was deleted exactly once |
| DartOpaqueLifecycle.NothingIsLeakedWhilePortsAreOpen | frb_rust/src/dart_opaque/non_clone.rs:71-92 | In a run in which no post fails, when all shares are gone and all messages delivered, each handle was deleted or taken out, once |
| DartOpaqueLifecycle.EveryEventHasItsCause | frb_rust/src/dart_opaque/non_clone.rs:36-110 | In every run a handle is lost only when its port refused it, sent only when its port took it, both only from a foreign isolate; taken only by `into_inner` at home; deleted only by a drop at home or by its port |
| DartOpaqueLifecycle.LastShareGoes | frb_rust/src/dart_opaque/non_clone.rs:57-92 | Giving up the last share leads to deletion or to the caller at home, to the mail elsewhere with an open port, and to a leak with a closed one |
| DartOpaqueLifecycle.SharesAreCounted | frb_rust/src/dart_opaque/mod.rs:46-80 | In every run the shares are those made and cloned less those dropped, or none after an `into_inner` of the last; raw pointers are those turned out less those turned back |
| DartOpaqueLifecycle.UsesAreCounted | frb_rust/src/dart_opaque/mod.rs:52-54 | A handle is used exactly as often as its Dart object was asked for at home |
| DartOpaqueLifecycle.DeletedAtHomeExactlyWhenPortIsHome | frb_rust/src/dart_opaque/boxes/guarded_box.rs:57-73 | No run deletes such a handle in a foreign isolate if and only if its port belongs to the isolate that made it |
| DartFnCalls.DartFnHandler.Invoke | frb_rust/src/dart_fn/handler.rs:37-39 | Takes the handler through the model's draw and insertion steps: it returns the next 32-bit id, with the completer put under it and one already there dropped |
| DartFnCalls.DartFnHandler.HandleOutput | frb_rust/src/dart_fn/handler.rs:60 | Takes the handler through the model's output step, and returns the completer of that id, if there is one |
| DartFnCalls.AnsweredOnceByItsOwnId | frb_rust/src/dart_fn/handler.rs:56-70 | Over all interleavings, with outputs of any id at any time, a future is answered at most once and only by an output with its id |
| DartFnCalls.OutputSettlesExactlyItsFuture | frb_rust/src/dart_fn/handler.rs:56-70 | An output settles the pending future with its id and touches no other; it changes anything at all exactly when there is one |
| DartFnCalls.PostedIsInserted | frb_rust/src/dart_fn/handler.rs:37-51 | A posted call has its completer inserted, so no output is too early |
| DartFnCalls.FirstOutputAnswers | frb_rust/src/dart_fn/handler.rs:30-70 | In any run, once a call has inserted its completer, the first output with its id answers it for good, and is recorded, unless it was abandoned or its id reused in between |
| DartFnCalls.GivenUpOnlyByItsOwner | frb_rust/src/dart_fn/handler.rs:53-69 | A call counts as abandoned, or its answer as lost, only if its owner abandoned it |
| DartFnCalls.EveryCallIsAccountedFor | frb_rust/src/dart_fn/handler.rs:37-70 | In every run, there are as many calls as ids were drawn, posted are exactly those with a post, and each answered call has its answer |
| DartFnCalls.CancelledExactlyByReuse | frb_rust/src/dart_fn/handler.rs:37-39 | A future is cancelled exactly by the insertion of a call a multiple of 2^32 away while it is pending |
| DartFnCalls.NoneCancelledBeforeWrap | frb_rust/src/dart_fn/handler.rs:37-39 | No run of at most 2^32 calls cancels one |
| DartFnCalls.CancellationIsReachable | frb_rust/src/dart_fn/handler.rs:37-39 | A run in which a call is cancelled by the wrap |
| StreamClosing.SinkFamily.Drop | frb_rust/src/stream/closer.rs:20-26 | Dropping the last clone, and no other, posts the closing message; as a step of the model, and of the closer's drop behind it |
| StreamClosing.ClosedExactlyWhenAllClonesAreGone | frb_rust/src/stream/closer.rs:20-26 | In every interleaving of any number of families, the posts of one are data, then one closing message exactly when all clones are gone; nothing follows it |
| StreamClosing.PostsAreWhatWasAdded | frb_rust/src/stream/stream_sink.rs:17-41 | In every run, the posts of a family are the data added to it, in order, then a closing message if its closer was dropped, which can be done exactly after one drop more than clones |
| LeakedBuffers.VecResize | frb_rust/src/ffi_binding/mod.rs:31-41 | Keeps the prefix and fills with zeros, with room for all of it |
| LeakedBuffers.RustHeap.New | frb_rust/src/for_generated/pointer.rs:4-15 | A new buffer of zeros; a negative length panics; allocations and outstanding buffers stay one to one with capacity equal to length |
| LeakedBuffers.RustHeap.Resize | frb_rust/src/ffi_binding/mod.rs:20-41 | The buffer becomes its resized contents, at its own or any free address; the others are unchanged; the old allocation is reclaimed once |
| LeakedBuffers.RustHeap.Take | frb_rust/src/ffi_binding/mod.rs:43-46 | The contents last written are handed back and the buffer is gone; when none is left, no memory is |
| AttrEncoder.ConvertFrbAttrToEncodedForm | frb_macros/src/components/converter.rs:7-37 | The loop with its held-back `#` computes the scan from the start |
| AttrEncoder.ConvertIsRewriteExactlyWhenTidy | frb_macros/src/components/converter.rs:7-37 | The scan replaces each frb attribute in place and leaves everything else where it is, if and only if at every level each `#` has a group or an equal `#` behind it |
| AttrDecoding.DecodeRestoresExactlyWhen | frb_codegen/src/library/commands/cargo_expand/real.rs:61-73 | Replacing every encoded comment, whatever it carries, by the text that it encodes gives the original back if and only if that was tidy and held no encoded comment, well-formed or not; for any printer from whose text the stream's frb attributes read back |
| AttrPrinting.SuchPrintersExist | frb_macros/src/components/converter.rs:20-23 | Some printer has all that this asks, for all streams |
| AttrDecoding.PayloadReadBack | frb_macros/src/components/encoder.rs:7-12 | The payload of an encoded comment is the attribute it was made from |
| AttrDecoding.CommentIsHidden | frb_macros/src/components/encoder.rs:7-12 | An encoded comment documents nothing unless `frb_expand` is set; its digits are those of the attribute's text in brackets behind a `#` |
| AttrEncoder.HexReadBack | frb_macros/src/components/encoder.rs:8 | Hexadecimal text is read back as the same bytes |
| AttrEncoder.HexIsLowerCase | frb_macros/src/components/encoder.rs:8 | Two lower-case digits for each byte |
| AttrSettling.ConvertTwice | frb_macros/src/components/converter.rs:7-37 | On tidy streams converting twice is converting once |
| AttrSettling.ConvertTwiceExactlyWhen | frb_macros/src/components/converter.rs:7-37 | On any stream, converting twice is converting once if and only if, at every level outside encoded attributes: from the second `#` on, the tokens before a group are all equal to the `#` put before that group, no bracket behind a `#` begins with `# frb`, and behind the last group there is at most one `#` |
| AttrEncoder.UntidyStreamsChange | frb_macros/src/components/converter.rs:12-35 | Streams whose `#` is moved or lost, one that loses another the second time, and one in which a new attribute appears |
| NamespacePaths.SplitUndoesJoinExactlyWhen | frb_codegen/src/library/utils/namespace.rs:21-24 | A joined list splits into itself if and only if no component holds a separator and none but the last ends with a colon |
| NamespacePaths.PathOfNewExactlyWhen | frb_codegen/src/library/utils/namespace.rs:21-62 | `path` after `new` is the list, if and only if it is not one empty component and none but the last ends with a colon |
| NamespacePaths.NewAcceptsExactlyWhen | frb_codegen/src/library/utils/namespace.rs:21-35 | `new` accepts exactly lists without a separator or a backslash in a component |
| NamespacePaths.PlainComponentsComeBack | frb_codegen/src/library/utils/namespace.rs:21-62 | Lists of nonempty components without colons and backslashes are accepted and come back |
| NamespacePaths.PathIsInjective | frb_codegen/src/library/utils/namespace.rs:57-62 | Different namespaces have different paths |
| NamespacePaths.PrefixIsAPartialOrder | frb_codegen/src/library/utils/namespace.rs:84-86 | `is_prefix_of` is reflexive, transitive and antisymmetric |
| NamespacePaths.PrefixMeans | frb_codegen/src/library/utils/namespace.rs:84-86 | A namespace is a prefix exactly when further components complete its path |
| NamespacePaths.ChildPathExactlyWhen | frb_codegen/src/library/utils/namespace.rs:80-82 | `join` adds exactly one component, if and only if the namespace is not empty, its last component does not end with a colon, and the name holds no separator |
| NamespacePaths.BackslashesAreRefused | frb_codegen/src/library/utils/namespace.rs:80-82 | `join` fails exactly when a backslash is among the parts |
| NamespacePaths.StripPrefixRebuildsExactlyWhen | frb_codegen/src/library/utils/namespace.rs:88-92 | `strip_prefix` succeeds exactly for prefixes; prefix and rest rebuild the path, if and only if the rest is not one empty component |
| NamespacePaths.StrippedText | frb_codegen/src/library/utils/namespace.rs:88-92 | The original text is the prefix, one separator and the stripped text |
| NamespacePaths.NameComesBackExactlyWhen | frb_codegen/src/library/utils/namespace.rs:153-174 | A serialized name is read back if and only if it holds no slash |
| NamespacePaths.AcceptedExactlyWhen | frb_codegen/src/library/utils/namespace.rs:162-174 | Text is accepted exactly if it has a slash and no backslash before the last one |
| NamespacePaths.AcceptedTextIsCanonical | frb_codegen/src/library/utils/namespace.rs:162-174 | Whatever text is accepted is the serialized form of what it is read as |
| NamespacePaths.PathsThatDoNotComeBack | frb_codegen/src/library/utils/namespace.rs:21-62 | Two lists that `new` accepts and `path` does not give back |

## Left out

- MoiArcPool.MoiArcPoolInner.IncrementStrongCount: the count stops with a panic at the 32-bit maximum, as in builds with overflow checks; the wrap of builds without them is not modelled.
- AttrDecoding.DecodeRestoresExactlyWhen: works on token trees, given that the text of each of the stream's frb attributes reads back as the same tokens, and that reading does not much lengthen a text (a doc comment that becomes an attribute is allowed for); each decoded text is read by itself, source positions and the search in the printed text are not modelled.
- Documentation attributes are recognised as `doc = ".."` or `cfg_attr(frb_expand, doc = "..")`, not in the other ways the language has to write them.
- LockableOrder.SortUnstableByOrder: the library's sorting algorithm is replaced by a simple one; everything else uses only that the result is sorted and has the same entries.
- LeakedBuffers.RustHeap.IntoLeakVecPtr: vectors longer than an `i32` can say, whose length the code would wrap, are excluded.
- LeakedBuffers.RustHeap.New: addresses come from outside as any free number; that `shrink_to_fit` leaves no spare capacity is taken from the library.
- The queue inside tokio's lock and the counter inside `std::sync::Arc` appear as their documented effects; memory ordering is not modelled, each atomic operation and each region under a lock is one step.
- The handles that a pooled value owns are those it was made with; a value that changes what it owns is not modelled.
- Cancelling an asynchronous call while it waits for a guard, and panics inside a body, are not steps of the locking model.
- Bodies of calls are functions of what they have read so far; how they use the values is theirs.
- The pool's poisoned lock makes later operations panic; those panics are not followed further.
- SSE numbers other than `u8`, `i32` and `usize`, floating point, maps and opaque pointers; `usize` is 64 bits wide and the byte order is little-endian.
- Running out of memory while decoding, and the unused bytes after the announced length.
- A call whose post fails keeps its completer and stays pending; the model leaves such calls waiting, as the code does.
- What a caller does with a persistent handle it took out with `into_inner`.
- A foreign delivery ends the process, because its panic meets a C function boundary.
- The generated SSE sink also lets its user post any message with any action, the closing one included; the model's `Add` posts data.
- Two sinks deserialized from one text are two families, each with its own closing message.
- The Dart side, wasm, the thread pools, the handlers, configuration, logging and the code generator's other parts.
