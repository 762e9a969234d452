# Cushy and Gooey: the core logic, modelled and verified in Dafny

Cushy is a retained-mode GUI toolkit for Rust. Gooey is the toolkit it grew
out of. This project models the logic of both that decides state, without
the windowing, rendering or threading around it, and proves properties of
that model.

- The reactive system. Cushy's `Dynamic` values (`src/value.rs`, and the
  earlier `src/dynamic.rs`) keep a wrapping generation counter and notify
  callbacks and windows. Readers remember the generation they read.
  Callback handles combine and persist (`src/reactive.rs`). A futures slot
  allocator reuses freed ids. A bounded channel delivers values to a
  callback in order (`src/reactive/channel.rs`). Gooey's arena-based
  reactor (`crates/gooey-reactor`) links scopes to parents and children.
  It propagates `map_each` results forward, and dropping a scope detaches
  its children.
- Text editing. The `Input` widget's cursor, selection, edits, word motion
  and blinking caret (`src/widgets/input.rs`). Gooey's styled text
  (`text/src/lib.rs`) and its multi-paragraph rich text
  (`text/src/rich.rs`). Gooey's rasterizer input state, over rich text
  (`widgets/src/input/rasterizer.rs`).
- Text wrapping. The tokenizer splits spans into words, punctuation,
  whitespace and line ends (`text/src/wrap/tokenizer.rs`). The measuring
  stage groups tokens into what wrapping keeps together
  (`text/src/wrap/measured.rs`).
- Layout. The constraint a widget is measured under, and the style
  values layout reads: dimension ranges, visual orders, container
  levels, and the component map with its inheritance (`src/lib.rs`,
  `src/styles.rs`). The single-child widgets `Align`, `Spacing`,
  `Expand`, `Resize`, `Container` and `Scroll`. The `Wrap` widget's rows.
  The `GridLayout` measuring passes that `Grid` and `Stack` share
  (`src/widgets/grid.rs`, `src/widgets/stack.rs`). The reconciliation
  loop that keeps their live children in step with their children, which
  Gooey's `Flex` rasterizer also uses
  (`crates/gooey-widgets/src/flex/raster.rs`). The row window of
  `VirtualList` (`src/widgets/virtual_list.rs`).
- Widgets with state of their own. The widget `Pile`, `Layers` with its
  overlays and modals, the keyed `Tree`, keyboard `Shortcuts`, the
  tri-state checkbox, message boxes and their native buttons
  (`src/dialog.rs`, `src/dialog/native.rs`), and the tic-tac-toe
  example's rules. From the older Gooey widgets: the absolute-positioning
  layout, lists with their item markers, and the navigator's back stack.
- Trees, windows and drawing state. Cushy's mounted widget tree
  (`src/tree.rs`) and the deferred focus, activation and unmounting of
  `src/context.rs`. The window bookkeeping of `src/window.rs`, and the
  repacking of a captured frame. The clip rect arithmetic and the font
  state of `src/graphics.rs`. The animation state and animation chains
  (`src/animation.rs`). Gooey's widget tree arena, window attributes and
  mouse buttons (`crates/gooey-core`).
- Styling in Gooey. Class lists (`style/classes.rs`), the pattern library
  and its matching (`style.rs`), and the style sheet with its rule
  matching and merging (`core/src/styles/style_sheet.rs`). The browser
  frontend's CSS blocks (`frontends/browser/src/utils.rs`).
- Gooey's rasterizer frontend. The shared window state: redraw
  scheduling, focus, render tables and hover
  (`frontends/rasterizer/src/state.rs`, `lib.rs`). The timer thread's
  queue (`frontends/rasterizer/src/timer.rs`).

The form of each module follows its source file. State that the source
updates in place is a class whose methods state the whole new state,
usually as a specification function of the old one. Each class has lemmas
about that function: round trips, invariants kept, exact effects on the
text. Pure code is datatypes, functions and lemmas. Closures and callbacks
become parameters, or a log of what they were handed. Clocks become
numbers passed in. Text is `seq<char>` with one byte per character.
Integer widths appear where they matter, for example `usize` wrap-around
of generations.

Where verification showed the source does something its authors
evidently did not intend, "## Findings" describes it. The model then has
both versions: the code as written, with a lemma that exhibits the
problem, and the corrected behaviour, which the rest of the model uses.

## Model

| member | source | states |
|---|---|---|
| CushyValue.NextGeneration | src/value.rs:883-885 | the generation counter is a wrapping `usize`: it adds one below the maximum and goes to 0 at `usize::MAX` |
| CushyValue.GenerationAfterIsModular | src/value.rs:883-885 | after k changes the generation is the start plus k modulo 2^64 |
| CushyValue.ReaderSeesChangesUnlessFullWrap | src/value.rs:697-699 | a reader sees an update after k changes exactly when k is not a multiple of 2^64 |
| CushyValue.DynamicData.constructor | src/value.rs:25-40 | a new dynamic holds the value at generation 0 with one handle, no readers, no callbacks and nothing dispatched |
| CushyValue.DynamicData.NoteChanged | src/value.rs:588-600 | advances the generation once, hands every callback the new value with its generation, and asks every waiting window to redraw, leaving none waiting |
| CushyValue.DynamicData.Replace | src/value.rs:237-241 | returns the old value, stores the new one and notifies exactly once |
| CushyValue.DynamicData.Set | src/value.rs:250-252 | stores the new value and notifies exactly once |
| CushyValue.DynamicData.Update | src/value.rs:263-278 | reports a change exactly when the new value differs; only then the generation advances and callbacks and windows are notified, otherwise nothing changes |
| CushyValue.DynamicData.Take | src/value.rs:200-205 | returns the old value, leaves the default and notifies through the mutable guard |
| CushyValue.DynamicData.TakeIfNotDefault | src/value.rs:215-226 | a default value is left alone and yields nothing; any other is taken, replaced by the default, and notified |
| CushyValue.DynamicData.RedrawWhenChanged | src/value.rs:488-491 | queues the window for a redraw on the next change and changes nothing else |
| CushyValue.DynamicData.MapEach | src/value.rs:527-543 | the mapped dynamic starts at the mapped current value and one callback more is registered on the source |
| CushyValue.DynamicData.CreateReader | src/value.rs:310-316 | a new reader synchronised with the current generation, so it has no update pending; the reader count grows by one |
| CushyValue.DynamicData.CloneHandle | src/value.rs:383-385 | one strong handle more, nothing else changes |
| CushyValue.DynamicData.DropHandle | src/value.rs:389-395 | one strong handle less, nothing else changes |
| CushyValue.DynamicData.Lock | src/value.rs:339-344 | a guard on this dynamic that has not written |
| CushyValue.DynamicGuard.constructor | src/value.rs:639-642 | a guard on the cell that has not written |
| CushyValue.DynamicGuard.Write | src/value.rs:653-656 | a write through the guard stores the value and marks the guard written, without notifying yet |
| CushyValue.DynamicGuard.Drop | src/value.rs:660-664 | dropping a written guard notifies once; dropping an unwritten guard changes nothing |
| CushyValue.DynamicReader.constructor | src/value.rs:669-672 | a reader of the source remembering the given generation |
| CushyValue.DynamicReader.Get | src/value.rs:710-717 | returns the current value and resynchronises, so no update is pending |
| CushyValue.DynamicReader.BlockUntilUpdated | src/value.rs:728-761 | one pass finds an update exactly when the generation differs, a disconnection exactly when nothing changed and only readers hold the data, and must wait otherwise |
| CushyValue.DynamicReader.CloneReader | src/value.rs:773-779 | the copy reads the same source from the same generation; one reader more |
| CushyValue.DynamicReader.Drop | src/value.rs:783-786 | one reader less, nothing else changes |
| CushyValue.DisconnectingReaderFromDynamic | src/value.rs:814-819 | a reader whose dynamic has been dropped reports the disconnection |
| CushyValue.ReaderObservesSet | src/value.rs:697-717 | a reader created before a `set` sees the update, reads the new value and is synchronised afterwards |
| LegacyDynamic.DynamicData.constructor | src/dynamic.rs:12-25 | a new dynamic holds the value at generation 0 with one handle, no readers and nothing dispatched |
| LegacyDynamic.DynamicData.MapMut | src/dynamic.rs:32-39 | the mutation is applied and the generation advances (wrapping), but no callback runs and no window is asked to redraw |
| LegacyDynamic.DynamicData.Replace | src/dynamic.rs:149-175 | returns the old value with its generation, stores the new value with the next generation, hands all callbacks the new value once and redraws every waiting window |
| LegacyDynamic.DynamicData.Set | src/dynamic.rs:77-79 | stores the value with the next generation and notifies callbacks and windows once |
| LegacyDynamic.DynamicData.MapEach | src/dynamic.rs:185-201 | the mapped dynamic starts at the mapped current value; one callback more on the source |
| LegacyDynamic.DynamicData.CreateRefReader | src/dynamic.rs:82-88 | a new reader at the current generation; one reader more |
| LegacyDynamic.DynamicData.DropHandle | src/dynamic.rs:107-113 | one strong handle less, nothing else changes |
| LegacyDynamic.DynamicRefReader.constructor | src/dynamic.rs:242-245 | a reader of the source at the given generation |
| LegacyDynamic.DynamicRefReader.MapRef | src/dynamic.rs:248-252 | maps the current value and resynchronises the reader |
| LegacyDynamic.DynamicRefReader.Get | src/dynamic.rs:255-260 | returns the current value and keeps the read generation |
| LegacyDynamic.DynamicRefReader.BlockUntilUpdated | src/dynamic.rs:262-277 | one pass finds an update exactly when the generation differs, a disconnection exactly when nothing changed and only readers remain, and must wait otherwise |
| LegacyDynamic.DynamicRefReader.Drop | src/dynamic.rs:295-298 | one reader less, nothing else changes |
| LegacyDynamic.DisconnectingRefReader | src/dynamic.rs:302-307 | a reader whose dynamic has been dropped reports the disconnection |
| LegacyDynamic.GetDoesNotResynchronise | src/dynamic.rs:255-277 | after a `set`, reading with `get` leaves the update pending, while `map_ref` clears it |
| GooeyReactor.NextGeneration | crates/gooey-reactor/src/lib.rs:581-591 | the generation never becomes zero: it adds one below `usize::MAX` and goes back to 1 on overflow |
| GooeyReactor.UpdateKeepsShape | crates/gooey-reactor/src/lib.rs:240-264 | storing a value's new data keeps every scope and link, and leaves every other value as it was |
| GooeyReactor.SameShapeKeepsValid | crates/gooey-reactor/src/lib.rs:553-569 | an arena of the same shape as a valid one is valid |
| GooeyReactor.Reactor.constructor | crates/gooey-reactor/src/lib.rs:30-34 | a new reactor has no scopes and satisfies the arena invariant |
| GooeyReactor.Reactor.NewRootScope | crates/gooey-reactor/src/lib.rs:40-48 | adds one fresh, empty root scope and nothing else |
| GooeyReactor.Reactor.NewScope | crates/gooey-reactor/src/lib.rs:78-92 | adds one fresh, empty scope whose parent is the given scope, and records it among the parent's children |
| GooeyReactor.Reactor.NewDynamic | crates/gooey-reactor/src/lib.rs:96-115 | adds one fresh value in the scope, at generation 1 and with no callbacks |
| GooeyReactor.Reactor.Get | crates/gooey-reactor/src/lib.rs:178-183 | a value exactly when its scope and the value still exist, and then the stored value |
| GooeyReactor.Reactor.GenerationOf | crates/gooey-reactor/src/lib.rs:351-369 | a generation exactly when the value exists, and it is never zero |
| GooeyReactor.Reactor.Set | crates/gooey-reactor/src/lib.rs:240-264 | a missing value changes nothing and yields `None`; otherwise returns the old value, stores the new one at the next generation, keeps the arena's shape and the arena invariant, changes only values fed from it through chains of mappings, and leaves the result of every one of its mappings holding that mapping of the new value |
| GooeyReactor.Reactor.NotifyChanged | crates/gooey-reactor/src/lib.rs:581-591 | running the callbacks in order keeps the arena's shape, leaves the changed value and everything not fed from it untouched, and leaves each mapping's result holding the mapped new value, since a later callback's propagation never reaches an earlier mapping's result |
| GooeyReactor.Reactor.MapEach | crates/gooey-reactor/src/lib.rs:300-321 | a missing source yields `None`; otherwise a fresh dynamic in the same scope starting at the mapped current value, registered as a mapping callback on the source |
| GooeyReactor.Reactor.AddForEach | crates/gooey-reactor/src/lib.rs:325-345 | a missing value changes nothing; otherwise one callback more on the value |
| GooeyReactor.Reactor.AddCallback | crates/gooey-reactor/src/lib.rs:316-345 | a missing value changes nothing; otherwise the callback is appended to that value's callbacks, a mapping's fresh result is recorded as fed from that position, and the arena invariant is kept |
| GooeyReactor.Reactor.DropScope | crates/gooey-reactor/src/lib.rs:637-658 | removes the scope with its values, detaches its children and unlinks it from its parent, keeping the arena invariant |
| GooeyReactor.ChildrenExist | crates/gooey-reactor/src/lib.rs:553-562 | every child of a scope exists and differs from it |
| GooeyReactor.ParentExists | crates/gooey-reactor/src/lib.rs:553-562 | a scope's parent exists, lists the scope among its children, and is not its child |
| GooeyReactor.DropKeepsValid | crates/gooey-reactor/src/lib.rs:637-658 | dropping a scope keeps the arena invariant |
| GooeyReactor.DropKeepsEntries | crates/gooey-reactor/src/lib.rs:637-658 | dropping a scope keeps every other scope's values, and a surviving parent link is the old one |
| GooeyReactor.DropKeepsParents | crates/gooey-reactor/src/lib.rs:637-658 | after the drop every surviving parent link is matched by a child link |
| GooeyReactor.DropKeepsChildren | crates/gooey-reactor/src/lib.rs:637-658 | after the drop every surviving child link is matched by a parent link |
| GooeyReactor.ValueIterator.constructor | crates/gooey-reactor/src/lib.rs:269-276 | a new iterator of the value has read generation 1 |
| GooeyReactor.ValueIterator.Next | crates/gooey-reactor/src/lib.rs:481-522 | finishes once the value is gone; yields the value and remembers its generation when it changed; waits otherwise |
| GooeyReactor.MapEachScenario | crates/gooey-reactor/src/lib.rs:684-692 | a mapped dynamic starts at the mapped value and follows a `set` of its source |
| GooeyReactor.IteratorScenario | crates/gooey-reactor/src/lib.rs:481-522 | a fresh iterator waits, yields a newly set value, and finishes after its scope is dropped |
| GooeyReactor.DownstreamChangeIsLater | crates/gooey-reactor/src/lib.rs:581-591 | a change that reaches only values fed from a value touches no value created before it |
| GooeyReactor.DownstreamIsLater | crates/gooey-reactor/src/lib.rs:300-321 | a value fed, through mappings, from another was created after it |
| GooeyReactor.DownstreamOfFed | crates/gooey-reactor/src/lib.rs:300-321 | what is fed from a mapping's result is fed from that mapping's source |
| GooeyReactor.SiblingNotDownstream | crates/gooey-reactor/src/lib.rs:300-321 | the result of one mapping of a value is never fed from the result of another mapping of the same value |
| GooeyReactor.NarrowerChange | crates/gooey-reactor/src/lib.rs:581-591 | setting a mapping's result changes neither its source nor anything not fed from the source |
| GooeyReactor.MappingsStep | crates/gooey-reactor/src/lib.rs:581-591 | running one more callback keeps the results of the earlier mappings and sets the new mapping's result |
| GooeyReactor.SameShapeKeepsFeeds | crates/gooey-reactor/src/lib.rs:240-264 | storing values keeps every mapping recorded at its result |
| GooeyReactor.NewScopeKeepsFeeds | crates/gooey-reactor/src/lib.rs:78-92 | adding an empty scope keeps every mapping recorded at its result |
| GooeyReactor.NewValueKeepsValid | crates/gooey-reactor/src/lib.rs:96-115 | a new value at the allocation counter keeps the arena invariant |
| GooeyReactor.NewValueKeepsFeeds | crates/gooey-reactor/src/lib.rs:96-115 | a new value without callbacks keeps every mapping recorded at its result |
| GooeyReactor.AppendCallbackKeepsFeeds | crates/gooey-reactor/src/lib.rs:316-320 | pushing a mapping to a fresh result records that result as fed from the new position, and keeps every other record |
| GooeyReactor.DropKeepsFeeds | crates/gooey-reactor/src/lib.rs:637-658 | dropping a scope keeps every surviving mapping recorded at its result |
| GooeyReactor.DropChildLink | crates/gooey-reactor/src/lib.rs:637-658 | each child link that survives a drop is matched by its parent link |
| CushyReactive.HandleEqIsEquivalence | src/reactive.rs:665-674 | handle equality is reflexive, symmetric and transitive |
| CushyReactive.SingleIsNotMulti | src/reactive.rs:665-674 | a single handle never equals a multi handle, even one holding the same callback, and no handle never equals an empty multi handle |
| CushyReactive.Kinds | src/reactive.rs:549-559 | a handle holds no callbacks exactly when it is the empty handle or an empty multi handle |
| CushyReactive.Combine | src/reactive.rs:708-743 | combining with the empty handle is the identity on either side, keeps exactly the callbacks of both handles, and a multi handle on the left keeps its callbacks first |
| CushyReactive.CombineSinglesOrder | src/reactive.rs:708-743 | adding one single handle to another puts the right-hand callback first |
| CushyReactive.CombineAssociativeContents | src/reactive.rs:708-743 | combining is associative as far as the kept callbacks go |
| CushyReactive.ForgetOwner | src/reactive.rs:573-580 | a value callback loses its owner and keeps its identity; a channel callback is unchanged |
| CushyReactive.ForgetOwnersOf | src/reactive.rs:638-650 | every callback of the list loses its owner, in place |
| CushyReactive.ForgetOwners | src/reactive.rs:638-650 | the handle stays equal to the original, holds as many callbacks, and none of them keeps an owner |
| CushyReactive.DropRemovals | src/reactive.rs:685-689 | dropping removes exactly the registered value callbacks that still have an id, and nothing else |
| CushyReactive.PersistKind | src/reactive.rs:562-571 | a persisted value callback has no id left; a channel callback is unchanged |
| CushyReactive.PersistAll | src/reactive.rs:620-632 | every callback of the handle is persisted, in place |
| CushyReactive.PersistRemovesNothing | src/reactive.rs:620-632 | once persisted, dropping the handle removes no callback |
| CushyReactive.Executors.constructor | src/reactive.rs:112-112 | no lock's callbacks are executing at first |
| CushyReactive.Retained | src/reactive.rs:114-141 | the callbacks kept after a round are exactly those that did not report a disconnection |
| CushyReactive.RetainedAppend | src/reactive.rs:114-141 | keeping callbacks distributes over concatenation, so the kept ones stay in order |
| CushyReactive.Without | src/reactive.rs:154-162 | removing an id keeps exactly the other callbacks |
| CushyReactive.ChangeCallbacksData.constructor | src/reactive.rs:185-190 | no callbacks, nothing to remove, last invoked now |
| CushyReactive.ChangeCallbacksData.ExecuteCallbacks | src/reactive.rs:114-141 | refuses to run while this lock's callbacks are already executing; otherwise runs every callback, keeps the retained ones, records the invocation time and leaves the executor set as it was |
| CushyReactive.ChangeCallbacksData.Execute | src/reactive.rs:192-214 | a change older than the last invocation is skipped; otherwise the callbacks run as in `execute_callbacks` |
| CushyReactive.ChangeCallbacksData.Remove | src/reactive.rs:154-162 | on the executor thread the removal is deferred to the removal list; elsewhere the callback is removed at once |
| CushyReactive.InsertSorted | src/reactive.rs:312-338 | inserting into the sorted free list keeps it strictly sorted and adds exactly the new id |
| CushyReactive.FirstFree | src/reactive.rs:290-310 | the first free-list entry whose slot is empty, with every earlier entry occupied; none when every entry is occupied |
| CushyReactive.PollAll | src/reactive.rs:312-338 | polling keeps the free list sorted and the slot table's size |
| CushyReactive.PollAllEffects | src/reactive.rs:312-338 | a polled future that completes loses its slot and its id joins the free list; nothing else changes; the completion count grows by the number of distinct completing futures |
| CushyReactive.PollAllRegistered | src/reactive.rs:312-338 | after a poll a slot stays occupied exactly when it was occupied and its id was not both queued and ready |
| CushyReactive.PollAllAvailable | src/reactive.rs:312-338 | after a poll an id is free exactly when it was free before or it was queued and its slot is now empty; no other id becomes free |
| CushyReactive.PollAllCompleted | src/reactive.rs:312-338 | a poll completes exactly as many futures as there are distinct queued ids that were occupied and ready |
| CushyReactive.PollOne | src/reactive.rs:312-338 | polling one entry keeps the free list sorted and the slot table's size |
| CushyReactive.CompletingStep | src/reactive.rs:312-338 | the completing futures of a queue split into those of its first entry and of the rest |
| CushyReactive.Futures.constructor | src/reactive.rs:277-281 | no slots, no queue, no free ids |
| CushyReactive.Futures.Push | src/reactive.rs:290-310 | takes the first free id whose slot is empty, or a new slot at the end when there is none, and stores the future there |
| CushyReactive.Futures.Spawn | src/reactive.rs:284-288 | pushes the future and queues its id; under the free-list invariant it takes the first free id, or a new slot |
| CushyReactive.Futures.Wake | src/reactive.rs:340-342 | queues the id and changes nothing else |
| CushyReactive.Futures.Poll | src/reactive.rs:312-338 | polls every queued entry once, empties the queue, and leaves the state described by `PollAll` |
| CushyReactive.FreeListStaysFree | src/reactive.rs:312-338 | after a poll every free id names an empty slot |
| CushyReactive.FirstAvailableIsFree | src/reactive.rs:290-310 | under the free-list invariant the first free id is always usable |
| CushyChannel.LimitFor | src/reactive/channel.rs:299-321 | a bounded channel's limit is its capacity; an unbounded one's is `usize::MAX` |
| CushyChannel.ChannelData.constructor | src/reactive/channel.rs:299-321 | one instance, an empty queue, the callback present, and the channel registered with the background executor |
| CushyChannel.ChannelData.TrySend | src/reactive/channel.rs:368-394 | refused as disconnected once the callback is gone, refused as full at the limit, otherwise queued at the end, with the executor notified only when the queue was empty |
| CushyChannel.ChannelData.PollSend | src/reactive/channel.rs:37-58 | a disconnected channel hands the value back; a full one registers the waker and stays pending; otherwise the value is queued and the send completes |
| CushyChannel.ChannelData.CloneInstance | src/reactive/channel.rs:404-410 | one instance more, nothing else changes |
| CushyChannel.ChannelData.DropInstance | src/reactive/channel.rs:414-422 | one instance less; the last one unregisters the channel |
| CushyChannel.ChannelData.Poll | src/reactive/channel.rs:76-104 | the oldest value is handed to the callback and every waiting sender is woken; a disconnecting callback is removed; with nothing queued it reports whether the channel can still receive |
| CushyChannel.ChannelData.DisconnectCallback | src/reactive/channel.rs:106-108 | the callback is gone; the queue, instances and tasks are unchanged |
| CushyChannel.DeliversInOrder | src/reactive/channel.rs:481-490 | two values sent are handed to the callback in the order sent, with one notification |
| CushyChannel.BoundedChannelScenario | src/reactive/channel.rs:368-394 | a channel of capacity 1 refuses a second value as full, and refuses as disconnected once its callback has gone |
| CushyInput.CursorOrderIsTotal | src/widgets/input.rs:88-105 | the derived order of cursors (offset, then `Before` ahead of `After`) is irreflexive, total and transitive |
| CushyInput.Splice | src/widgets/input.rs:182-192 | replacing a range keeps the text before it, puts the new text in its place and keeps the text after it |
| CushyInput.InsertThenRemove | src/widgets/input.rs:182-192 | inserting text and removing the same range restores the original |
| CushyInput.RemoveThenReinsert | src/widgets/input.rs:182-192 | removing a range and inserting it back restores the original |
| CushyInput.WordStarts | src/widgets/input.rs:211-272 | exactly the offsets where a word begins, in increasing order |
| CushyInput.StartsFrom | src/widgets/input.rs:211-272 | exactly the word starts at or after the offset, in increasing order |
| CushyInput.RunLength | src/widgets/input.rs:211-272 | the word run from the offset is all word characters and ends at a non-word character or the end |
| CushyInput.FirstWord | src/widgets/input.rs:211-272 | the first word, non-empty and inside the text; none exactly when the text has no word |
| CushyInput.PreviousWordStartAsWrittenMovesForward | src/widgets/input.rs:245-256 | as written, moving one word left from inside leading whitespace ("  ab", offset 1) moves the cursor forward to 2 |
| CushyInput.PreviousWordStart | src/widgets/input.rs:245-256 | corrected: the last word start before the cursor, or 0; it never moves the cursor forward |
| CushyInput.PreviousWordStartFromFacts | src/widgets/input.rs:245-256 | the resumed search finds the last word start before the cursor among the remaining starts |
| CushyInput.ReplaceRangeAsWrittenOverwritesLastChar | src/widgets/input.rs:182-192 | as written, typing "x" with the cursor at the end of "abc" gives "abx" |
| CushyInput.BlinkState.constructor | src/widgets/input.rs:1014-1020 | the cursor starts visible with a full interval left |
| CushyInput.BlinkState.Update | src/widgets/input.rs:1024-1042 | the blink phase advances by exactly the elapsed time modulo two intervals, and the remaining time never exceeds one interval |
| CushyInput.BlinkState.ForceOn | src/widgets/input.rs:1044-1047 | the cursor is visible with a full interval left |
| CushyInput.BlinkAdvance | src/widgets/input.rs:1024-1042 | one update's state change advances the phase by the elapsed time modulo the period |
| CushyInput.SelectionSpan | src/widgets/input.rs:274-299 | the selected byte range is ordered and inside the text whenever the cursor is |
| CushyInput.EmptySelectionAfter | src/widgets/input.rs:274-288 | an empty selection is cleared unless a mouse button is held |
| CushyInput.Input.constructor | src/widgets/input.rs:112-127 | the text as given, the cursor at 0, no selection and no button held |
| CushyInput.Input.SelectAll | src/widgets/input.rs:154-162 | the selection runs from the start to the end of the text; the text is unchanged |
| CushyInput.Input.SelectedRange | src/widgets/input.rs:274-288 | the lower and upper ends of the selection, ordered; no upper end without a non-empty selection |
| CushyInput.Input.ReplaceRange | src/widgets/input.rs:182-192 | corrected: the range clipped to the text is replaced, the cursor lands after the new text and the selection is cleared |
| CushyInput.Input.ReplaceSelection | src/widgets/input.rs:320-337 | replaces the selection, or inserts at the cursor, leaving the cursor after the new text |
| CushyInput.Input.Delete | src/widgets/input.rs:194-209 | removes the selection, or the character before the cursor, moving the cursor back |
| CushyInput.Input.ForwardDelete | src/widgets/input.rs:164-180 | removes the selection, or the character after the cursor, keeping the cursor |
| CushyInput.Input.MoveCursor | src/widgets/input.rs:211-272 | moves by one character or word in either direction within the text and resets the affinity |
| CushyInput.Input.ArrowKey | src/widgets/input.rs:356-428 | with shift a selection starts at the cursor (or keeps its start); without shift it is cleared |
| CushyInput.Input.MouseDown | src/widgets/input.rs:780-794 | one button more; the cursor and selection start go to the clicked position |
| CushyInput.Input.MouseDrag | src/widgets/input.rs:796-809 | the cursor follows the pointer; the selection start stays |
| CushyInput.Input.MouseUp | src/widgets/input.rs:811-819 | one button less, nothing else changes |
| CushyInput.TypeThenBackspace | src/widgets/input.rs:194-209 | typing a character and pressing backspace restores the text and the cursor |
| CushyInput.SelectAllThenType | src/widgets/input.rs:154-162 | select-all followed by typing replaces the whole text |
| CushyInput.FindPreviousWordStart | src/widgets/input.rs:245-256 | the loop over the increasing word starts returns the corrected previous word start: the last start before the cursor, or 0 |
| GooeyText.LenIsLengthOfConcat | text/src/lib.rs:109-111 | the length of a text is the length of its string |
| GooeyText.ConcatAppend | text/src/lib.rs:180-186 | the string of two span lists one after the other is the two strings one after the other |
| GooeyText.NonEmpty | text/src/lib.rs:168-176 | keeping the non-empty spans keeps the string, in order, and leaves no empty span |
| GooeyText.CleanupFacts | text/src/lib.rs:168-176 | clean-up never changes the string; an empty text keeps exactly its first span; otherwise no span is empty; at least one span always remains |
| GooeyText.ApplyEdit | text/src/lib.rs:96-106 | removing a range shortens a span's text by the range's length; inserting lengthens it by the inserted text's length |
| GooeyText.RelativeRange | text/src/lib.rs:142-166 | the range relative to a span is ordered and clipped to the span, and starts and ends where the absolute range does when those fall inside it |
| GooeyText.Edited | text/src/lib.rs:142-166 | editing a range keeps the number of spans |
| GooeyText.EditSpan | text/src/lib.rs:142-166 | editing a span keeps its style |
| GooeyText.RemoveIsExact | text/src/lib.rs:96-100 | removing a range through the visited spans removes exactly those bytes of the string |
| GooeyText.InsertedOnce | text/src/lib.rs:102-106 | inserting into the first span that holds the offset keeps the number of spans |
| GooeyText.InsertIsExact | text/src/lib.rs:102-106 | inserting at an offset within the string puts the text there exactly once, across any span boundary; an offset past the end changes nothing |
| GooeyText.InsertStrIsExact | text/src/lib.rs:102-106 | corrected insertion followed by clean-up puts the text into the string at the offset |
| GooeyText.RemoveRangeIsExact | text/src/lib.rs:96-100 | removal followed by clean-up takes exactly the range out of the string |
| GooeyText.InsertStrAsWrittenDuplicatesAtBoundary | text/src/lib.rs:102-106 | as written, inserting "x" at offset 1 of the spans "1" and "2" gives "1xx2" |
| GooeyText.InsertStrAsWrittenSingleSpan | text/src/lib.rs:102-106 | within a single span the source's insertion agrees with the corrected one |
| GooeyText.Text.Default | text/src/lib.rs:47-51 | a text of one empty span |
| GooeyText.Text.constructor | text/src/lib.rs:59-61 | a text of the given spans |
| GooeyText.EditSpansInRange | text/src/lib.rs:142-166 | the loop over the spans edits exactly those the range visits, relative to each, and stops at the first span starting at or after the range's end |
| GooeyText.InsertIntoFirstSpan | text/src/lib.rs:102-106 | corrected: the loop inserts into the first span holding the offset only, giving the spans described by `InsertedOnce` |
| GooeyText.Text.ForEachInRangeMut | text/src/lib.rs:142-166 | every span visited by the range is edited with the range relative to it, the others are kept, and the spans are cleaned up |
| GooeyText.Text.CleanupSpans | text/src/lib.rs:168-176 | the spans become their clean-up |
| GooeyText.Text.RemoveRange | text/src/lib.rs:96-100 | the string loses exactly the bytes in the range |
| GooeyText.Text.InsertStr | text/src/lib.rs:102-106 | corrected: the text appears exactly once at the offset of the string |
| GooeyText.Text.Length | text/src/lib.rs:109-111 | the length of the text's string |
| GooeyText.RemoveMiddleSpan | text/src/lib.rs:222-232 | removing a whole middle span keeps its neighbours as they were |
| GooeyText.RemoveEntireSpan | text/src/lib.rs:201-206 | removing the only character of a single span leaves one empty span |
| GooeyText.RemoveAcrossSpans | text/src/lib.rs:248-258 | removing across three spans trims the outer two and drops the emptied inner one |
| GooeyText.InsertAtEdges | text/src/lib.rs:261-274 | inserting at the start and at the end of a single span |
| GooeyRichText.Compare | text/src/rich.rs:201-212 | positions compare by paragraph, then by offset; equal exactly when identical |
| GooeyRichText.PositionOrderIsTotal | text/src/rich.rs:207-212 | the position order is antisymmetric, transitive and total |
| GooeyRichText.PositionBefore | text/src/rich.rs:158-168 | one byte back within the paragraph; the start of the text stays put; the start of a later paragraph is left unimplemented in the source and yields nothing |
| GooeyRichText.Strings | text/src/rich.rs:178-186 | one string per paragraph, its spans joined |
| GooeyRichText.RangeStart | text/src/rich.rs:97-134 | a paragraph's range starts at the start offset in the start paragraph and at 0 after it |
| GooeyRichText.RangeEnd | text/src/rich.rs:97-134 | a paragraph's range ends at the end offset clipped to its length in the end paragraph, and at its length before it |
| GooeyRichText.EditParagraph | text/src/rich.rs:40-71 | editing a paragraph leaves at least one span |
| GooeyRichText.EditParagraphRemoves | text/src/rich.rs:40-62 | removing a range from a paragraph removes exactly those bytes of its string |
| GooeyRichText.EditedParagraphs | text/src/rich.rs:97-134 | the edit loop keeps the number of paragraphs, keeps every paragraph non-empty, and leaves the paragraphs outside the range untouched |
| GooeyRichText.DropInner | text/src/rich.rs:97-134 | dropping the paragraphs the closure asked to remove keeps every paragraph non-empty |
| GooeyRichText.DropInnerLength | text/src/rich.rs:40-62 | a removal across paragraphs drops exactly the paragraphs strictly inside the range |
| GooeyRichText.ForEachResult | text/src/rich.rs:97-134 | the result of `for_each_in_range_mut` keeps every paragraph non-empty |
| GooeyRichText.InsertStrResult | text/src/rich.rs:64-71 | inserting keeps every paragraph non-empty |
| GooeyRichText.RemovedStrings | text/src/rich.rs:40-62 | removing within a paragraph keeps the number of lines; across paragraphs it loses as many lines as boundaries crossed |
| GooeyRichText.RemoveRangeStrings | text/src/rich.rs:40-62 | the strings after `remove_range` are exactly the strings with the range removed, the first and last paragraph of a range across paragraphs merged |
| GooeyRichText.RemoveWithinParagraph | text/src/rich.rs:40-62 | within one paragraph the range's bytes are removed from that paragraph's string only |
| GooeyRichText.RemoveAcrossParagraphs | text/src/rich.rs:40-62 | across paragraphs the first paragraph keeps its head, the last its tail, and the two are merged |
| GooeyRichText.InsertStrStrings | text/src/rich.rs:64-71 | inserting puts the text into the location's paragraph string at its offset and leaves the other paragraphs alone |
| GooeyRichText.RichText.Default | text/src/rich.rs:21-25 | one paragraph holding one empty span, whose string is empty |
| GooeyRichText.RichText.constructor | text/src/rich.rs:34-38 | the paragraphs as given |
| GooeyRichText.RichText.PositionAfter | text/src/rich.rs:145-156 | one byte on within the paragraph; the end of the text stays put; the end of an earlier paragraph is left unimplemented in the source and yields nothing |
| GooeyRichText.RichText.End | text/src/rich.rs:170-176 | the last paragraph at its length |
| GooeyRichText.RichText.StepsAreInverse | text/src/rich.rs:145-168 | within a paragraph stepping after then before, or before then after, returns to the start; stepping after never goes back; the end is a fixed point |
| GooeyRichText.RichText.ForEachInRangeMut | text/src/rich.rs:97-134 | the paragraphs become the edit loop's result with the requested paragraphs removed |
| GooeyRichText.RichText.EditLoop | text/src/rich.rs:107-127 | each existing paragraph from the start to the end is edited, and the paragraphs strictly inside the range are listed for removal in increasing order |
| GooeyRichText.RichText.RemoveParagraphs | text/src/rich.rs:129-133 | the listed paragraphs are removed from the highest down |
| GooeyRichText.RichText.RemoveRange | text/src/rich.rs:40-62 | the paragraphs' strings lose exactly the range, the first and last paragraph merged across paragraphs |
| GooeyRichText.RichText.InsertStr | text/src/rich.rs:64-71 | the text is inserted into the location's paragraph at its offset; the other paragraphs are unchanged |
| GooeyRichText.Split | text/src/rich.rs:178-186 | splitting a string at line feeds yields at least one line |
| GooeyRichText.SplitJoin | text/src/rich.rs:178-186 | splitting `to_string` at line feeds gives back the paragraphs' strings when none contains a line feed |
| GooeyRichText.SpanParagraphs | text/src/rich.rs:220-232 | paragraphs made from strings are non-empty and have those strings |
| GooeyRichText.RemoveRangeOneParagraphStart | text/src/rich.rs:220-232 | removing the start of one paragraph gives "123" |
| GooeyRichText.RemoveRangeOneParagraphEnd | text/src/rich.rs:235-247 | removing the end of one paragraph gives "123" |
| GooeyRichText.RemoveRangeOneParagraphInner | text/src/rich.rs:250-262 | removing inside one paragraph gives "123" |
| GooeyRichText.RemoveRangeCrossBoundaries | text/src/rich.rs:265-280 | removing across one paragraph boundary merges to "123456" |
| GooeyRichText.RemoveRangeCrossMultipleBoundaries | text/src/rich.rs:283-299 | removing across several paragraph boundaries merges to "123456" |
| GooeyRichText.InsertIntoSecondParagraph | text/src/rich.rs:64-71 | inserting into the second paragraph leaves the first alone |
| GooeyInputRaster.SelectionStart | widgets/src/input/rasterizer.rs:670-672 | the caret without a selection; otherwise the earlier of caret and selection end, no later than either |
| GooeyInputRaster.SelectionEnd | widgets/src/input/rasterizer.rs:674-676 | the caret without a selection; otherwise the later of caret and selection end, no earlier than either |
| GooeyInputRaster.SelectionIsOrdered | widgets/src/input/rasterizer.rs:669-677 | selection start <= selection end; they are the cursor's two positions in some order; they coincide iff nothing is selected or both ends are equal |
| GooeyInputRaster.MinPosition | widgets/src/input/rasterizer.rs:670-672 | the smaller of two positions: one of them, at or before both |
| GooeyInputRaster.MaxPosition | widgets/src/input/rasterizer.rs:674-676 | the larger of two positions: one of them, at or after both |
| GooeyInputRaster.CharacterOffset | widgets/src/input/rasterizer.rs:633-649 | the offset of a position in the joined text: its paragraph's start plus its offset |
| GooeyInputRaster.CharacterOffsetIsMonotone | widgets/src/input/rasterizer.rs:633-649 | within the text the character offset is strictly increasing in the position, and two positions share one iff they are equal |
| GooeyInputRaster.ParagraphStartGrows | widgets/src/input/rasterizer.rs:633-649 | a later paragraph starts after an earlier one's bytes and its line feed |
| GooeyInputRaster.ParagraphStartIndexesJoin | widgets/src/input/rasterizer.rs:628-631 | the text of to_string from paragraph k's start is paragraph k joined with the ones after it |
| GooeyInputRaster.EndOffsetIsLength | widgets/src/input/rasterizer.rs:327-335 | the end position (what select-all selects up to) has the text's length as character offset |
| GooeyInputRaster.NotifiedSelectionMatchesCursor | widgets/src/input/rasterizer.rs:633-649 | the widget is told of a selection end iff something is selected, and then the end offset is after the start offset |
| GooeyInputRaster.ReplaceSelectionSplices | widgets/src/input/rasterizer.rs:449-465 | replacing the selection splices the replacement between the text before the selection and the text after it; paragraphs before and after are kept; the caret lands right after the replacement |
| GooeyInputRaster.BackspaceRemovesPreviousByte | widgets/src/input/rasterizer.rs:271-281 | backspace with no selection and a positive offset removes exactly the byte before the caret |
| GooeyInputRaster.DurationSince | widgets/src/input/rasterizer.rs:706-714 | checked_duration_since: Some(later - earlier) iff earlier <= later |
| GooeyInputRaster.BlinkState.constructor | widgets/src/input/rasterizer.rs:685-699 | a new blink state is visible and changes one blink (500 ms) from now |
| GooeyInputRaster.BlinkState.ForceOn | widgets/src/input/rasterizer.rs:701-704 | force_on shows the caret for a whole blink from now |
| GooeyInputRaster.BlinkState.Update | widgets/src/input/rasterizer.rs:706-714 | visibility flips (and the change moves one blink on) only when the change time is before now; the time left is never negative |
| GooeyInputRaster.InputState.constructor | widgets/src/input/rasterizer.rs:406-416 | the initial state holds the given text, a collapsed cursor at the start and a visible caret |
| GooeyInputRaster.InputState.NotifySelectionChanged | widgets/src/input/rasterizer.rs:633-649 | the widget's selection becomes the cursor's selection as character offsets, the end only when it differs from the start |
| GooeyInputRaster.InputState.SetSelection | widgets/src/input/rasterizer.rs:651-659 | set_selection stores the cursor and notifies the widget |
| GooeyInputRaster.InputState.RemoveSelection | widgets/src/input/rasterizer.rs:450-459 | a selection is removed from the text and the cursor collapses onto its start; fails only where remove_range panics |
| GooeyInputRaster.InputState.ReplaceSelection | widgets/src/input/rasterizer.rs:449-470 | text becomes the spliced text, the caret moves past the replacement with no selection, the caret shows and the widget knows the new value and selection |
| GooeyInputRaster.InputState.ReceiveCharacter | widgets/src/input/rasterizer.rs:265-291 | backspace without selection removes the previous byte and moves the caret back; backspace with a selection removes it and collapses the caret at its start (or reports the panic); backspace at the start of a paragraph leaves the text unchanged; printable characters replace the selection; control characters are ignored |
| GooeyInputRaster.InputState.Keyboard | widgets/src/input/rasterizer.rs:294-373 | Left/Right collapse the cursor before/after the selection start, primary+A selects from the start to the end of the text; handled keys show the caret; panics (todo!, missing paragraph) are reported |
| GooeyInputRaster.TypeTwoLetters | widgets/src/input/rasterizer.rs:265-291 | typing "a" then "b" into an empty field gives "ab" with the caret after it and no selection |
| GooeyInputRaster.TypeThenBackspace | widgets/src/input/rasterizer.rs:265-291 | typing "ab" and backspace leaves value "a" with the caret at 1 and no selection |
| GooeyInputRaster.TypeOverSelection | widgets/src/input/rasterizer.rs:449-470 | typing over a selection across two paragraphs joins them around the typed character |
| GooeyInputRaster.BlinkScenario | widgets/src/input/rasterizer.rs:701-714 | a caret shows at 400 ms, hides at 600 ms and shows again at 1200 ms |
| GooeyInputRaster.InsertNothing | widgets/src/input/rasterizer.rs:271-279 | inserting the empty string, as `replace_selection("")` does after removing, leaves every paragraph as it was |
| GooeyTokenizer.Emitted | text/src/wrap/tokenizer.rs:68-86 | nothing for an empty run; otherwise a token holding exactly the run, in the state's style, whose kind is the run's class |
| GooeyTokenizer.SpanTokensAreMaximalRuns | text/src/wrap/tokenizer.rs:99-127 | every token of a span is a non-empty run of characters of one class (whitespace, ASCII punctuation, word) in the span's style, and neighbouring runs differ in class |
| GooeyTokenizer.StepKeepsInv | text/src/wrap/tokenizer.rs:99-123 | one character of the loop keeps the runs maximal and the pending run of the current class |
| GooeyTokenizer.LexInvHolds | text/src/wrap/tokenizer.rs:99-123 | the loop invariant holds after any prefix of the span's text |
| GooeyTokenizer.FlushedRenders | text/src/wrap/tokenizer.rs:125-127 | emitting the pending run appends exactly that run |
| GooeyTokenizer.StepRenders | text/src/wrap/tokenizer.rs:99-123 | one character adds itself (or a line feed for the end of line) to the tokens' text, and a dropped control character adds nothing |
| GooeyTokenizer.LexRenders | text/src/wrap/tokenizer.rs:99-123 | the tokens so far plus the pending run read back as the text read so far without control characters other than line feeds |
| GooeyTokenizer.SpanTokensRender | text/src/wrap/tokenizer.rs:93-128 | the tokens of a span read back, in order, as its text without control characters other than line feeds |
| GooeyTokenizer.AllTokensRender | text/src/wrap/tokenizer.rs:93-128 | the tokens of several spans read back as their texts in order; there are none iff that text is empty |
| GooeyTokenizer.PreparedTokensRender | text/src/wrap/tokenizer.rs:91-135 | prepare_spans yields tokens reading back as the text, or the single NoText with the last span's metrics when there is none |
| GooeyTokenizer.SpanTokensAsWrittenText | text/src/wrap/tokenizer.rs:93-128 | as written, the runs of the tokens concatenate to the span's text without control characters |
| GooeyTokenizer.RenderedAppend | text/src/wrap/tokenizer.rs:93-128 | reading tokens back distributes over concatenation |
| GooeyTokenizer.TextOfAppend | text/src/wrap/tokenizer.rs:93-128 | the runs of two token lists, one after the other, are the two texts one after the other |
| GooeyTokenizer.FlushedText | text/src/wrap/tokenizer.rs:125-127 | emitting the pending run adds exactly its text to the tokens' runs |
| GooeyTokenizer.LexSnoc | text/src/wrap/tokenizer.rs:99-123 | lexing one more character is one more step of the (corrected) loop |
| GooeyTokenizer.LexAsWrittenSnoc | text/src/wrap/tokenizer.rs:99-123 | lexing one more character is one more step of the loop as written |
| GooeyTokenizer.SampleCorrected | text/src/wrap/tokenizer.rs:99-103 | corrected, "ab\ncd" has emitted "ab" and an end of line and holds "cd" pending |
| GooeyTokenizer.SampleAsWritten | text/src/wrap/tokenizer.rs:99-103 | as written, "ab\ncd" has emitted only the end of line and holds "abcd" pending |
| GooeyTokenizer.AsWrittenMovesLineEnd | text/src/wrap/tokenizer.rs:99-103 | as written, "ab\ncd" yields an end of line and then the single word "abcd" |
| GooeyTokenizer.CorrectedKeepsLineEnd | text/src/wrap/tokenizer.rs:99-103 | emitting the run before the end of line, "ab\ncd" yields "ab", an end of line and "cd" |
| GooeyTokenizer.TokenizerState.constructor | text/src/wrap/tokenizer.rs:59-66 | a new state has an empty run at the span start |
| GooeyTokenizer.TokenizerState.EmitTokenIfNeeded | text/src/wrap/tokenizer.rs:68-86 | returns the run's token (none for an empty run) and clears the run, keeping its class |
| GooeyTokenizer.Tokenizer.TokenizeSpan | text/src/wrap/tokenizer.rs:94-127 | appends exactly the span's tokens (with the line-feed correction) |
| GooeyTokenizer.Tokenizer.PrepareSpans | text/src/wrap/tokenizer.rs:91-135 | appends the tokens of every span in order, or a NoText with the last span's metrics when there are none |
| GooeyTokenizer.TokenizeSentence | text/src/wrap/tokenizer.rs:105-121 | "hi, yo" yields the word, the comma, the space and the word as four tokens |
| GooeyTokenizer.TokenizeBlank | text/src/wrap/tokenizer.rs:130-132 | an empty span and a tab-only span yield only NoText with the last span's metrics |
| GooeyMeasured.Commit | text/src/wrap/measured.rs:95-99 | committing leaves no current group and the committed groups unchanged |
| GooeyMeasured.SpanPieces | text/src/wrap/tokenizer.rs:24-30 | a group's spans in order, one piece per span |
| GooeyMeasured.GroupOf | text/src/wrap/tokenizer.rs:17-22 | a span group of the chosen kind holding exactly the given spans |
| GooeyMeasured.PiecesSnoc | text/src/wrap/measured.rs:95-99 | appending a group appends its pieces |
| GooeyMeasured.SpanPiecesSnoc | text/src/wrap/measured.rs:77-79 | adding a span to a group adds its piece at the end |
| GooeyMeasured.PiecesExtendLast | text/src/wrap/measured.rs:77-93 | extending the current group adds exactly the new span's piece after all earlier ones |
| GooeyMeasured.WellGroupedSnoc | text/src/wrap/measured.rs:86-93 | a filled group that is not whitespace after whitespace keeps the groups well grouped |
| GooeyMeasured.WellGroupedPrefix | text/src/wrap/measured.rs:95-99 | dropping the last group keeps the rest well grouped |
| GooeyMeasured.AddKeepsGrouping | text/src/wrap/measured.rs:77-93 | pushing a visual or whitespace span keeps every group non-empty and no two whitespace groups adjacent, and leaves a current group of the span's kind |
| GooeyMeasured.PushedKeepsInv | text/src/wrap/measured.rs:26-75 | every token keeps the grouping invariant: no empty group, no neighbouring whitespace groups, a whitespace group current exactly in whitespace status |
| GooeyMeasured.PushedKeepsPieces | text/src/wrap/measured.rs:26-75 | a token adds exactly its own span, or its end of line, after everything before it |
| GooeyMeasured.AddKeepsPieces | text/src/wrap/measured.rs:77-93 | pushing a span, into the current group or a new one, adds exactly that span |
| GooeyMeasured.MeasureAllKeepsInv | text/src/wrap/measured.rs:117-119 | after any tokens the grouping invariant holds |
| GooeyMeasured.MeasureAllKeepsPieces | text/src/wrap/measured.rs:117-119 | after any tokens the groups read back as the tokens' spans and ends of line in order |
| GooeyMeasured.MeasureAllWithoutNoText | text/src/wrap/measured.rs:33-35 | without a `NoText` token no no-text metrics are recorded |
| GooeyMeasured.AllTokensHaveNoNoText | text/src/wrap/tokenizer.rs:93-134 | the tokens of non-blank spans contain no `NoText` |
| GooeyMeasured.PieceTextOfTokens | text/src/wrap/measured.rs:26-75 | the pieces of the tokens spell out the tokens' text |
| GooeyMeasured.PieceTextAppend | text/src/wrap/measured.rs:95-104 | reading back distributes over concatenation |
| GooeyMeasured.MeasuredTextReadsBack | text/src/wrap/measured.rs:108-128 | a text with something to show measures to well-grouped groups that read back as its text without control characters other than line feeds; a blank text measures to `NoText` with the last span's metrics; no spans give no groups |
| GooeyMeasured.MeasuredTokensReadBack | text/src/wrap/measured.rs:117-125 | tokens without `NoText` give `Groups` of the finished state, well grouped, reading back as the tokens |
| GooeyMeasured.MeasureAllSnoc | text/src/wrap/measured.rs:117-119 | one more token is one more push |
| GooeyMeasured.AsWrittenSplitsWordAfterWhitespace | text/src/wrap/measured.rs:43-47 | as written, " " then "he" and "llo" in two spans give three groups: the word is split |
| GooeyMeasured.AsWrittenKeepsWordAtLineStart | text/src/wrap/measured.rs:38-41 | as written, the same two spans at line start give one group |
| GooeyMeasured.CorrectedKeepsWordAfterWhitespace | text/src/wrap/measured.rs:43-47 | corrected, the word after the space stays one group |
| GooeyMeasured.WordsStayTogether | text/src/wrap/measured.rs:36-49 | corrected, two neighbouring word tokens always end the current word group, in order, whatever came before |
| GooeyMeasured.TextMeasureState.constructor | text/src/wrap/measured.rs:109-114 | starts at line start with no groups, no current group and no no-text metrics |
| GooeyMeasured.TextMeasureState.CommitCurrentGroup | text/src/wrap/measured.rs:95-99 | the new state is the committed one |
| GooeyMeasured.TextMeasureState.PushVisualSpan | text/src/wrap/measured.rs:77-84 | the new state extends a current word group or commits and starts one |
| GooeyMeasured.TextMeasureState.PushWhitespaceSpan | text/src/wrap/measured.rs:86-93 | the new state extends a current whitespace group or commits and starts one |
| GooeyMeasured.TextMeasureState.PushToken | text/src/wrap/measured.rs:26-75 | the new state is the (corrected) push of the token, whose invariant and read-back are proved above |
| GooeyMeasured.TextMeasureState.Finish | text/src/wrap/measured.rs:101-104 | returns the groups with the current group committed |
| GooeyMeasured.MeasureTokens | text/src/wrap/measured.rs:117-125 | the result is the measure of all the tokens: `NoText` when a `NoText` token brought metrics, the finished groups otherwise |
| GooeyMeasured.NewMeasuredText | text/src/wrap/measured.rs:108-128 | the result is the measured text of the spans, whose read-back is proved in `MeasuredTextReadsBack` |
| CushyConstraint.MinOf | src/lib.rs:167-173 | a fill's minimum is its size, a size-to-fit's is zero |
| CushyConstraint.MaxOf | src/lib.rs:177-181 | the maximum is the limit's pixels whichever its kind |
| CushyConstraint.MinAtMostMax | src/lib.rs:167-181 | the minimum never exceeds the maximum, and they agree exactly for a fill or a size-to-fit of zero |
| CushyConstraint.FitMeasured | src/lib.rs:188-197 | a fill reports at least its size, a size-to-fit reports the measurement |
| CushyConstraint.FitMeasuredIsLeastCover | src/lib.rs:188-197 | the fitted value covers both the measurement and the minimum, and is the least value that does |
| CushyConstraint.FitMeasuredSize | src/lib.rs:209-219 | fitting a size fits each axis on its own |
| CushyConstraint.Add | src/lib.rs:221-237 | adding pixels keeps the kind of limit and saturates at `u32::MAX` |
| CushyConstraint.Sub | src/lib.rs:239-255 | subtracting pixels keeps the kind of limit and saturates at zero |
| CushyConstraint.AddSubRoundTrip | src/lib.rs:221-255 | subtraction undoes an addition that did not saturate, and addition undoes a subtraction that did not bottom out |
| CushyConstraint.AddSubMonotone | src/lib.rs:221-255 | saturating arithmetic moves both the minimum and the maximum in the operator's direction |
| CushyStyles.DefaultRange | src/styles.rs:876-883 | the default range has no bounds |
| CushyStyles.Minimum | src/styles.rs:911-919 | an included start is the minimum, an excluded one plus one is, an unbounded start has none |
| CushyStyles.Maximum | src/styles.rs:922-930 | an included end is the maximum, an excluded one minus one is, an unbounded end has none |
| CushyStyles.MinimumMaximumAreExtremes | src/styles.rs:911-930 | an amount lies within a range's bounds exactly when it is at least the minimum and at most the maximum |
| CushyStyles.ExactDimensionAsWritten | src/styles.rs:889-894 | as written, only an excluded start equal to an included end is an exact dimension |
| CushyStyles.ExactDimension | src/styles.rs:889-894 | as intended, a range from a dimension to itself inclusive is exactly that dimension, and nothing else is exact |
| CushyStyles.ExactDimensionAsWrittenMissesSingle | src/styles.rs:889-894 | a range made from a single dimension is not recognised as exact by the code as written |
| CushyStyles.ExactDimensionIsSingle | src/styles.rs:938-946 | the corrected check recognises exactly the ranges made from one dimension |
| CushyStyles.FromDimension | src/styles.rs:938-946 | a dimension converts to the inclusive range from it to itself |
| CushyStyles.ConversionsAdmitTheirRange | src/styles.rs:938-1015 | each `From` conversion of a Rust range admits exactly the amounts that range contains |
| CushyStyles.Clamp | src/styles.rs:899-907 | the clamped size is at most the maximum, at least a minimum that is not above the maximum, unchanged when already inside, and otherwise one of the bounds |
| CushyStyles.ClampIdempotent | src/styles.rs:899-907 | clamping a clamped size changes nothing |
| CushyStyles.RevHorizontal | src/styles.rs:2186-2192 | reversing swaps left-to-right and right-to-left |
| CushyStyles.RevVertical | src/styles.rs:2214-2220 | reversing swaps top-to-bottom and bottom-to-top |
| CushyStyles.RevVisual | src/styles.rs:2142-2147 | reversing a visual order reverses both of its directions |
| CushyStyles.RevIsInvolution | src/styles.rs:2142-2220 | reversing twice gives back every order |
| CushyStyles.LeftToRightAndRightToLeft | src/styles.rs:2124-2147 | the two horizontal orders are each other's reverse |
| CushyStyles.NextLevel | src/styles.rs:2307-2315 | the next container level is one rank higher, and the highest level has none |
| CushyStyles.NextClimbs | src/styles.rs:2289-2315 | only the lowest level has rank zero, `next` climbs strictly, and four steps from the lowest reach the highest |
| CushyStyles.InheritedKeepsOwn | src/styles.rs:190-202 | inheriting keeps every own component, adds exactly the parent's missing inheritable names, and marks each addition inherited |
| CushyStyles.InheritedIdempotent | src/styles.rs:190-202 | inheriting twice from the same parent is inheriting once |
| CushyStyles.InheritableOnly | src/styles.rs:206-219 | the filtered map holds exactly the inheritable components, unchanged |
| CushyStyles.IntoInherited | src/styles.rs:206-219 | `into_inherited` keeps exactly the inheritable components, and a map of only inheritable ones is kept as it is |
| CushyStyles.Styles.constructor | src/styles.rs:42-44 | new styles hold no components |
| CushyStyles.Styles.InsertNamed | src/styles.rs:56-60 | the component is stored under its name, replacing any earlier one, and nothing else changes |
| CushyStyles.Styles.With | src/styles.rs:84-101 | the component is stored as local and inheritable |
| CushyStyles.Styles.TryGet | src/styles.rs:163-177 | a component is found exactly when the name is stored and its value resolves to the requested type |
| CushyStyles.Styles.Get | src/styles.rs:180-186 | the found component, or the default when none is found |
| CushyStyles.Styles.GetWithFallback | src/styles.rs:117-132 | the component under the name when one is stored, even if it does not resolve, and otherwise the fallback's |
| CushyStyles.Styles.InheritFrom | src/styles.rs:190-202 | the loop over the parent's components leaves exactly the inherited map |
| CushyStyles.Styles.IntoInheritedComponents | src/styles.rs:206-219 | the styles keep only their inheritable components |
| CushyResize.OverrideConstraint | src/widgets/resize.rs:141-156 | a fill is clamped to the range; a size-to-fit becomes a fill of a single-size range, and otherwise sizes to fit the minimum, or the clamped limit when there is no minimum |
| CushyResize.UnboundedOverridesNothing | src/widgets/resize.rs:141-156 | an unbounded range leaves every constraint as it is |
| CushyResize.OverriddenFillWithinRange | src/widgets/resize.rs:141-146 | an overridden fill lies between the range's minimum and maximum |
| CushyResize.FirstPass | src/widgets/resize.rs:96-121 | an exact size on both axes is used as is and then filled |
| CushyResize.LayoutChildSize | src/widgets/resize.rs:96-138 | the reported size is at most the first pass clamped to the ranges, and exactly that when no filling pass follows |
| CushyResize.LayoutChildWithinMaximum | src/widgets/resize.rs:96-138 | the reported size never exceeds a bounded range's maximum on either axis |
| CushyResize.ExactSizeIsFilled | src/widgets/resize.rs:27-38 | with the corrected exact-size check, a resize to one size fills the child with that size and reports at most it |
| CushyExpand.Weight | src/widgets/expand.rs:87-93 | a weighted expansion has its weight on both axes; a one-axis expansion has weight one on its axis and none across it |
| CushyExpand.LayoutChild | src/widgets/expand.rs:105-138 | the child fills the largest available size; an expanded axis reports the larger of that and the child's size, the other axis the smaller |
| CushyExpand.LayoutChildExpands | src/widgets/expand.rs:105-138 | an expanded axis takes at least all the space allowed, the other axis at most that |
| CushyScroll.ConstrainChild | src/widgets/scroll.rs:477-482 | a fill limits the measurement to the size filled, a size-to-fit keeps it |
| CushyScroll.ConstrainChildIsLargestFit | src/widgets/scroll.rs:477-482 | the constrained size is the largest value within both the measurement and a fill's size |
| CushyScroll.ConstrainedScroll | src/widgets/scroll.rs:619-621 | the scroll is at most the maximum scroll and is one of the two |
| CushyScroll.ConstrainedScrollIdempotent | src/widgets/scroll.rs:619-621 | constraining twice is constraining once, and a scroll within the maximum is kept |
| CushyScroll.WheelScroll | src/widgets/scroll.rs:592-617 | the wheel moves the scroll back by the amount, kept between zero and the maximum, and is handled exactly when the scroll changes |
| CushyScroll.WheelOfNothingIgnored | src/widgets/scroll.rs:592-617 | a wheel of no movement is ignored unless the scroll was beyond the maximum |
| CushyScroll.UpdateBar | src/widgets/scroll.rs:445-474 | a bar drag of no distance returns the starting scroll unchanged, any other bar drag stays within the maximum |
| CushyScroll.UnmovedDragKeepsStart | src/widgets/scroll.rs:452-463 | an unmoved drag keeps a start beyond a shrunken maximum, while a moved one is brought back within it |
| CushyScroll.ContentRegion | src/widgets/scroll.rs:365-371 | the contents sit at minus the scroll, with a size cut only as far as needed to keep the far edge within `UPx::MAX` |
| CushyScroll.Make | src/widgets/scroll.rs:49-61 | making leaves a made widget: an unmade widget becomes made, a made one is kept |
| CushyScroll.MakeIdempotent | src/widgets/scroll.rs:49-61 | a second `make_if_needed` leaves the state unchanged |
| CushyScroll.OwnedWidget.constructor | src/widgets/scroll.rs:41-43 | a new owned widget is unmade |
| CushyScroll.OwnedWidget.MakeIfNeeded | src/widgets/scroll.rs:49-61 | the state becomes made, once, and the made widget is returned |
| CushyContainer.EdgesSize | src/styles.rs:1229-1261 | a size of the left-plus-right width and the top-plus-bottom height |
| CushyContainer.EdgesSizeSymmetric | src/styles.rs:1229-1261 | equal edges give twice the edge on each axis, and swapping opposite edges keeps the size |
| CushyContainer.Effective | src/widgets/container.rs:163-172 | explicit colours and levels are used as is; automatic takes the level after the parent's, and the lowest above a coloured parent or the highest level |
| CushyContainer.AutoNestingCycles | src/widgets/container.rs:163-172 | nested automatic containers climb from the lowest to the highest level and start again |
| CushyContainer.ToComponent | src/widgets/container.rs:240-247 | a level becomes a level component and a colour a colour component |
| CushyContainer.FromComponent | src/widgets/container.rs:228-238 | colour and level components convert; any other component is returned as the error |
| CushyContainer.ComponentRoundTrip | src/widgets/container.rs:228-247 | the two conversions are inverse to each other |
| CushyContainer.Container.constructor | src/widgets/container.rs:103-110 | a new container has an automatic background and no effective background yet |
| CushyContainer.Container.BackgroundColorOf | src/widgets/container.rs:162-189 | the effective background is recorded, styles are re-attached exactly when it changed, and its colour or its level's theme colour is returned |
| CushyContainer.AdjustChildConstraint | src/widgets/container.rs:191-201 | each axis of the child's constraint is the available one less the padding, saturating, of the same kind |
| CushyContainer.PositionChild | src/widgets/container.rs:203-216 | the child is placed at the left and top padding, and the container is the child plus the padding |
| CushyContainer.PaddingRoundTrip | src/widgets/container.rs:191-216 | padding taken off the constraint and given back after positioning restores the space offered |
| CushyAlign.NewFrame | src/widgets/align.rs:73-87 | an automatic side is none and a dimension is its unsigned pixels |
| CushyAlign.ChildConstraint | src/widgets/align.rs:89-100 | two fixed sides are taken off the limit; one automatic side sizes to fit within the limit less the fixed side; two automatic sides size to fit within the limit |
| CushyAlign.Measure | src/widgets/align.rs:102-124 | in a known length fixed sides are kept and the content takes what is left; when sizing to fit, automatic sides are zero and the content passes through |
| CushyAlign.MeasureFillsKnown | src/widgets/align.rs:102-118 | margins and content add up exactly to a known length when the fixed sides fit, and an automatic side leaves the content its size |
| CushyAlign.MeasureCentres | src/widgets/align.rs:109-113 | two automatic sides split what is left, the second getting the same or one pixel more |
| CushyAlign.LayoutSize | src/widgets/align.rs:162-166 | the layout's size covers both the margins and the content |
| CushyAlign.AlignMeasure | src/widgets/align.rs:35-64 | the content is measured in each axis's child constraint, and each axis is then measured around it |
| CushyAlign.CenteredFillsKnownSpace | src/widgets/align.rs:31-33 | a centred widget in a known space takes exactly that space and keeps its content's size where it fits |
| CushyAlign.SizeToFitWrapsContent | src/widgets/align.rs:119-123 | when sizing to fit, the margins are the fixed sides or zero and the content is its measurement |
| CushySpacing.SpacingSizeAsWritten | src/widgets/spacing.rs:177-181 | as written, spacing reports its margins alone |
| CushySpacing.SpacingAsWrittenDropsContent | src/widgets/spacing.rs:177-181 | as written, zero margins around a 100 by 50 child report a 0 by 0 widget |
| CushySpacing.MeasuredSizeCoversContent | src/widgets/spacing.rs:44-70 | the corrected size covers the content, is content plus margins when sizing to fit, and is the known space with automatic sides |
| CushyWrap.HorizontalAlignment | src/widgets/wrap.rs:58-86 | the lead and extra spacing of each alignment, honouring the layout order |
| CushyWrap.AlignmentFitsRow | src/widgets/wrap.rs:58-86 | the lead plus the extra spacing between the children never exceeds the remaining width, and start and end swap when the order is reversed |
| CushyWrap.VerticalOffset | src/widgets/wrap.rs:185-189 | top is at the row's top, bottom ends at the row's bottom, centre is halfway, and a child never sticks out of its row |
| CushyWrap.FillRow | src/widgets/wrap.rs:140-164 | the first child of a row is always placed, so each row is non-empty |
| CushyWrap.FillRowBreaksOnOverflow | src/widgets/wrap.rs:145-156 | every later child on a row ends within the width, and a row stops early only when the next child would end past it |
| CushyWrap.RowHeightIsTallest | src/widgets/wrap.rs:141-145 | as intended, a row is as tall as its tallest child |
| CushyWrap.RowHeightAsWritten | src/widgets/wrap.rs:141-152 | as written, a row's height also counts the child that moved to the next row |
| CushyWrap.WrappedChildRaisesRowAsWritten | src/widgets/wrap.rs:141-152 | as written, a 60 by 50 child wrapping after a 60 by 10 one makes the first row 50 tall |
| CushyWrap.FillNextRow | src/widgets/wrap.rs:137-164 | the inner loop finds exactly the row `FillRow` describes, and the row's own height |
| CushyWrap.PlaceRowChildren | src/widgets/wrap.rs:177-195 | each child is placed at the lead plus the extra spacing for each child before it plus its own x, at the row's top plus its vertical offset; the placements are exactly `RowPlacements`, and each lies between the row's top and bottom |
| CushyWrap.RowAlignment | src/widgets/wrap.rs:166-172 | a row with width to spare is aligned by `horizontal_alignment` on what is left; a full row gets no lead and no extra spacing |
| CushyWrap.RowTop | src/widgets/wrap.rs:134-136 | a row starts the spacing below the rows above once they have any height, and at zero before that |
| CushyWrap.RowPlacementsAt | src/widgets/wrap.rs:177-189 | child `j` of a row goes at the lead plus `j` times the extra spacing plus its own x, at the row's top plus its vertical offset |
| CushyWrap.RowPlacementsWithin | src/widgets/wrap.rs:183-189 | when no child is taller than the row, every child of the row lies between the row's top and its bottom |
| CushyWrap.LaidOutRow | src/widgets/wrap.rs:133-197 | the layout from a child on is that row's placements followed by the layout of the rest, starting at the row's bottom |
| CushyWrap.LaidOutBottomRow | src/widgets/wrap.rs:133-197 | the bottom of the layout from a child on is the bottom of the rest, laid out below that row |
| CushyWrap.LaidOutStep | src/widgets/wrap.rs:133-197 | laying out one more row keeps the rows so far a prefix of the whole layout and its bottom unchanged |
| CushyWrap.RowHeightsStep | src/widgets/wrap.rs:137-164 | the row heights from a child on are that row's height followed by the heights of the rows after it |
| CushyWrap.LaidOutHeightFrom | src/widgets/wrap.rs:133-197 | below a non-zero height, the layout ends that height plus every row's height plus the spacing once per row further down |
| CushyWrap.LaidOutHeight | src/widgets/wrap.rs:133-203 | the reported height is zero without children, and otherwise, once the first row has height, the sum of the row heights plus the spacing between each two rows |
| CushyWrap.PlaceChildStep | src/widgets/wrap.rs:179-195 | placing the next child moves it from the row still to place onto the children placed, with the offset grown by the extra spacing |
| CushyWrap.LayoutRow | src/widgets/wrap.rs:133-197 | one pass of the row loop moves past exactly the children `FillRow` puts on the row, keeps the placements so far the start of `LaidOut` with the same bottom, and keeps every child within the height so far |
| CushyWrap.Layout | src/widgets/wrap.rs:97-204 | the placements are exactly `LaidOut` and the height is `LaidOutBottom` (see `LaidOutHeight`), every child is laid out once, in order, within the reported height; the rows are those `FillRow` describes; the width is the space available |
| CushyCheckbox.FromBool | src/widgets/checkbox.rs:88-96 | `true` is checked and `false` unchecked; a `bool` is never indeterminant |
| CushyCheckbox.TryIntoBool | src/widgets/checkbox.rs:118-128 | converting to `bool` fails exactly on an indeterminant state and otherwise gives whether the box is checked |
| CushyCheckbox.IntoOption | src/widgets/checkbox.rs:98-106 | indeterminant is `None`, and the other states are `Some` of whether the box is checked |
| CushyCheckbox.FromOption | src/widgets/checkbox.rs:108-116 | `None` is indeterminant and `Some(true)` alone is checked |
| CushyCheckbox.BoolRoundTrip | src/widgets/checkbox.rs:88-128 | `bool` to state to `bool` gives the `bool` back, and a state with a `bool` converts back to itself |
| CushyCheckbox.OptionBijection | src/widgets/checkbox.rs:98-116 | the two `Option<bool>` conversions are inverse to each other |
| CushyCheckbox.Negate | src/widgets/checkbox.rs:130-139 | negation never gives indeterminant, and gives unchecked exactly for a checked box |
| CushyCheckbox.NegateIsBoolNot | src/widgets/checkbox.rs:130-139 | on determinate states negation is `bool`'s `!` and is undone by a second negation; indeterminant becomes checked |
| CushyCheckbox.Checkbox.constructor | src/widgets/checkbox.rs:36-42 | a new checkbox holds the given state |
| CushyCheckbox.Checkbox.Click | src/widgets/checkbox.rs:56-65 | a click replaces the state by its negation, which is never indeterminant |
| TicTacToe.Opponent | examples/tic-tac-toe.rs:50-59 | the other player is never the same player |
| TicTacToe.OpponentInvolution | examples/tic-tac-toe.rs:50-59 | switching players twice gives the same player back |
| TicTacToe.WinnerInLine | examples/tic-tac-toe.rs:117-130 | a line has a winner exactly when all three of its cells hold the same player, who is then the winner |
| TicTacToe.FirstFromIsFirstSome | examples/tic-tac-toe.rs:101-115 | the first answer naming a winner exists exactly when some answer names one, and no earlier answer does |
| TicTacToe.FirstWinnerIffLineHeld | examples/tic-tac-toe.rs:101-126 | there is a winner exactly when some row, column or diagonal is held by one player, and it is the holder of the first such line in the order tried |
| TicTacToe.GameState.NewGame | examples/tic-tac-toe.rs:68-86 | a new game has nine empty cells, and O moves first exactly when the clock's milliseconds are even |
| TicTacToe.GameState.CheckForWinner | examples/tic-tac-toe.rs:101-115 | the loop over rows and columns, then the diagonals, returns the winner of the first fully held line |
| TicTacToe.GameState.Play | examples/tic-tac-toe.rs:88-99 | the current player takes the cell, the turn passes, and the game ends with the winner, or with no winner once every cell is taken |
| TicTacToe.LinesInOrder | examples/tic-tac-toe.rs:103-110 | row `i` and then column `i` are tried in the `i`th pass of the loop |
| TicTacToe.NewWinnerIsMover | examples/tic-tac-toe.rs:88-99 | on a board with no winner, a move can only make the player who moved the winner |
| GooeyMouseEvents.DigitsOfValue | crates/gooey-core/src/events.rs:254-287 | the 64 bits of a button set's number are the set itself |
| GooeyMouseEvents.ValueFitsU64 | crates/gooey-core/src/events.rs:254-256 | the number of 64 buttons fits a `u64` |
| GooeyMouseEvents.MultipleOfValue | crates/gooey-core/src/events.rs:285-287 | every button set is `multiple` of its own number |
| GooeyMouseEvents.SingleIsPow2 | crates/gooey-core/src/events.rs:301-304 | `single(n)` is the number `2^n`, which `1 << n` computes |
| GooeyMouseEvents.ValueAboveZero | crates/gooey-core/src/events.rs:325-327 | a number is above zero exactly when one of its bits is set |
| GooeyMouseEvents.AnyIsSomeNth | crates/gooey-core/src/events.rs:325-327 | `any` holds exactly when some of the 64 buttons is pressed |
| GooeyMouseEvents.NthIsBit | crates/gooey-core/src/events.rs:376-378 | `nth(n)` holds exactly when bit `n` is set |
| GooeyMouseEvents.With | crates/gooey-core/src/events.rs:319-321 | `with(n)` presses the `n`th button |
| GooeyMouseEvents.WithPressesOne | crates/gooey-core/src/events.rs:319-321 | after `with(n)` a button is pressed exactly when it is the `n`th or was pressed before |
| GooeyMouseEvents.WithAdds | crates/gooey-core/src/events.rs:319-321 | pressing a button that was not pressed adds `2^n` to the number |
| GooeyMouseEvents.NamedButtonsAreBits | crates/gooey-core/src/events.rs:260-362 | `left`, `right`, `middle`, `back` and `forward` test bits 0, 1, 2, 3 and 4, as the constants say |
| GooeyMouseEvents.ConstructionTest | crates/gooey-core/src/events.rs:385-394 | buttons 2, 3, 20 and 63 are `multiple(0x8000_0000_0010_000C)` |
| GooeyMouseEvents.LeftTest | crates/gooey-core/src/events.rs:396-405 | `LEFT` is pressed on bit 0 only, is some button, and is `single(0)` and `multiple(1)` |
| GooeyMouseEvents.Relative | crates/gooey-core/src/events.rs:237-252 | a position is returned relative to the rectangle's origin exactly when it lies in the rectangle, right and bottom edges excluded |
| GooeyWindow.All | crates/gooey-core/src/window.rs:117-125 | `all()` has exactly bits 0, 1 and 2 set |
| GooeyWindow.HasFlagIsBit | crates/gooey-core/src/window.rs:127-140 | `self.0 & flag != 0` for a single-bit flag holds exactly when that bit is set |
| GooeyWindow.TestsAreOwnBits | crates/gooey-core/src/window.rs:127-140 | `close`, `minimize` and `maximize` each test exactly their own bit |
| GooeyWindow.ButtonValues | crates/gooey-core/src/window.rs:117-125 | `CLOSE`, `MINIMIZE`, `MAXIMIZE` and `all()` are the numbers 1, 2, 4 and 7 |
| GooeyWindow.AllFalseIsZero | crates/gooey-core/src/window.rs:127-140 | a set with no bit set is the number zero, so every test on it fails |
| GooeyWindow.AllEnablesEveryButton | crates/gooey-core/src/window.rs:117-140 | every button of `all()` tests as enabled |
| GooeyWindow.DefaultAttributes | crates/gooey-core/src/window.rs:75-98 | the default window is resizable, visible, decorated and active, titled "Gooey" at the normal level, with all buttons and no sizes or location |
| GooeyWindow.NewBuilder | crates/gooey-core/src/window.rs:9-13 | a builder starts from the default attributes |
| GooeyWindow.WithTitle | crates/gooey-core/src/window.rs:16-19 | `title` replaces the title and no other attribute |
| GooeyWindow.WithLevel | crates/gooey-core/src/window.rs:21-24 | `level` replaces the level and no other attribute |
| GooeyWindow.WithLocation | crates/gooey-core/src/window.rs:26-29 | `location` sets the location and no other attribute |
| GooeyWindow.WithResizable | crates/gooey-core/src/window.rs:31-34 | `resizable` replaces the flag and no other attribute |
| GooeyWindow.WithInnerSize | crates/gooey-core/src/window.rs:36-39 | `inner_size` sets the size and no other attribute |
| GooeyWindow.SettersCommute | crates/gooey-core/src/window.rs:16-39 | setters of different attributes give the same builder in either order |
| GooeyWindow.SetterOverrides | crates/gooey-core/src/window.rs:16-39 | a second call of a setter overrides the first |
| GooeyWindow.Create | crates/gooey-core/src/window.rs:41-50 | `create` hands the builder's attributes to the new window |
| GooeyWindow.OpenWindow | crates/gooey-core/src/window.rs:157-166 | a window opens with the attributes' size and location, zero where unset, and their title |
| GooeyWindow.BuiltWindowOpens | crates/gooey-core/src/window.rs:9-50 | a window built with a title and a size opens with them at location zero |
| GooeyList.WrappingAdd | widgets/src/list.rs:338 | `wrapping_add` on `i32` is the sum when it fits and otherwise differs from it by exactly 2^32 |
| GooeyList.DefaultKind | widgets/src/list.rs:53-59 | the default kind is unordered and not unadorned (it has bullets) |
| GooeyList.KindPredicates | widgets/src/list.rs:31-51 | a kind is ordered exactly when it is not unordered, and unadorned exactly when it is unordered without a marker |
| Common.NatDigitsRoundTrip | widgets/src/list.rs:273 | the decimal digits of a number have no leading zero and read back as the number |
| GooeyList.DecimalRoundTrip | widgets/src/list.rs:273 | a formatted integer, with its minus sign, reads back as the integer |
| GooeyList.Alpha | widgets/src/list.rs:291-301 | the loop of `alpha` pushes one letter `a + digit` per base-26 digit, least significant first, then a full stop; nothing but the stop for values below one |
| GooeyList.AlphaDigitsRoundTrip | widgets/src/list.rs:291-301 | the letters `alpha` writes read back as the number, so distinct values get distinct labels |
| GooeyList.AlphaAsWrittenSkipsA | widgets/src/list.rs:291-301 | as written, 1 is labelled "b.", 26 is "ab." and no value gets "a." |
| GooeyList.AlphaBijectiveRoundTrip | widgets/src/list.rs:291-301 | the corrected alphabetic numbering reads back as the number |
| GooeyList.AlphaLabel | widgets/src/list.rs:291-301 | the corrected label always ends in a full stop |
| GooeyList.AlphaLabelSingleLetters | widgets/src/list.rs:291-301 | the corrected labels of 1 to 26 are the single letters from `a` in order |
| GooeyList.ItemLabelMeaning | widgets/src/list.rs:257-289 | no label without a marker, the bullet, white bullet and square characters for the other unordered kinds; ordered labels end in a full stop, decimal ones read back as the value, alphabetic ones are the numbering and Roman ones are the sign and numeral of the absolute value |
| GooeyList.ValueAt | widgets/src/list.rs:311-342 | only ordered lists number their items |
| GooeyList.ValueAtWithoutOverflow | widgets/src/list.rs:311-342 | while nothing overflows, the `i`th value is the start (or 1) plus `i` steps of -1 when reversed and +1 otherwise |
| GooeyList.ItemLabelIterator.constructor | widgets/src/list.rs:311-327 | the iterator starts at the start or 1, with increment -1 when reversed, 1 when not and none for unordered lists, and `count` items to go |
| GooeyList.ItemLabelIterator.Next | widgets/src/list.rs:329-342 | nothing once the count is used up; otherwise the current value's label, one item fewer to go and the value moved by the increment with wrap-around |
| GooeyList.ItemLabels | widgets/src/list.rs:311-342 | the iterator yields exactly `count` labels, the `i`th being the label of the `i`th value |
| GooeyList.NewBuilder | widgets/src/list.rs:222-230 | a builder starts bulleted with no children |
| GooeyList.Bulleted | widgets/src/list.rs:151-156 | `bulleted` makes the list a bullet list and keeps its children |
| GooeyList.Unadorned | widgets/src/list.rs:158-163 | `unadorned` makes the list unadorned and keeps its children |
| GooeyList.OrderedBy | widgets/src/list.rs:165-172 | `ordered` numbers from the default start upwards in the given style |
| GooeyList.Reversed | widgets/src/list.rs:174-180 | `reversed`, allowed only on ordered lists, counts down and keeps the start and style |
| GooeyList.StartAt | widgets/src/list.rs:182-188 | `start_at`, allowed only on ordered lists, sets the start and keeps the direction and style |
| GooeyList.WithRegistration | widgets/src/list.rs:195-198 | a registered child goes at the end |
| GooeyList.Finish | widgets/src/list.rs:200-211 | the finished list keeps the children and kind, and gets the default padding exactly when it is unadorned |
| GooeyList.OrderedNumbering | widgets/src/list.rs:165-188 | a reversed list started at `s` numbers its items `s`, `s - 1`, ...; a plain ordered list numbers them 1, 2, ... |
| GooeyList.CountdownWraps | widgets/src/list.rs:338 | counting down from `i32::MIN` wraps round to `i32::MAX` |
| GooeyList.List.constructor | widgets/src/list.rs:200-205 | a list holds the builder's children and kind and has sent nothing |
| GooeyList.List.Remove | widgets/src/list.rs:106-110 | the child at the index is taken out and returned, the others keep their order, and its removal is sent |
| GooeyList.List.PushRegistration | widgets/src/list.rs:117-121 | the child goes at the end and its addition is sent |
| GooeyNavigator.NavigatorBehavior.constructor | widgets/src/navigator.rs:127-133 | the back stack starts as the single default location |
| GooeyNavigator.NavigatorBehavior.BackButton | widgets/src/navigator.rs:76-96 | the bar has a back button exactly when the stack is deeper than one, titled after the location below the top |
| GooeyNavigator.NavigatorBehavior.Push | widgets/src/navigator.rs:34-37 | `push` adds one location on top, which is shown, and the content changes |
| GooeyNavigator.NavigatorBehavior.SwapTo | widgets/src/navigator.rs:39-42 | `swap_to` replaces the top location and keeps the depth and everything below |
| GooeyNavigator.NavigatorBehavior.PopToRoot | widgets/src/navigator.rs:44-47 | `pop_to_root` keeps only the first location |
| GooeyNavigator.NavigatorBehavior.Pop | widgets/src/navigator.rs:49-57 | `pop` returns nothing and changes nothing with one location left; otherwise it removes and returns the top; at least one location always remains |
| GooeyNavigator.ExplorerWalk | gooey/examples/widget_explorer_screens/navigator.rs:191-236 | pushing three pages gives the stack the demonstration expects, replacing the top gives level 3 on top, going home leaves the main menu, from which `pop` returns nothing |
| GooeyNavigator.PushThenPop | widgets/src/navigator.rs:34-57 | a push followed by a pop returns the pushed location and restores the stack |
| CushyDialog.DefaultButton | src/dialog.rs:36-40 | the default button has no callback and the default (empty) caption |
| CushyDialog.CustomButton | src/dialog.rs:42-54 | `custom` keeps both the caption and the callback |
| CushyDialog.ButtonFromString | src/dialog.rs:56-75 | a button made from a string only dismisses the box and is captioned with the string |
| CushyDialog.ButtonFromCallback | src/dialog.rs:77-87 | a button made from a closure runs it and keeps the default caption |
| CushyDialog.Build | src/dialog.rs:202-221 | a new builder is undecided and holds an informational OK/Cancel box with the title, no description, a default affirmative button and no other button |
| CushyDialog.Finish | src/dialog.rs:156-160 | `finish` hands back the box as built |
| CushyDialog.Message | src/dialog.rs:223-228 | `message` is an informational box with a single default button |
| CushyDialog.WithExplanation | src/dialog.rs:127-131 | the builder's `with_explanation` replaces the description and nothing else |
| CushyDialog.AsWarning | src/dialog.rs:133-140 | the builder's `warning` sets the level and nothing else |
| CushyDialog.AsError | src/dialog.rs:142-149 | the builder's `error` sets the level and nothing else |
| CushyDialog.WithCancel | src/dialog.rs:150-154 | the builder's `with_cancel` sets the cancel button and nothing else |
| CushyDialog.WithYes | src/dialog.rs:163-172 | `with_yes` is only for undecided builders; it makes a yes/no box with the given yes button and keeps the other buttons |
| CushyDialog.WithOk | src/dialog.rs:174-180 | `with_ok` is only for undecided builders; it sets the OK button and keeps the kind |
| CushyDialog.WithNo | src/dialog.rs:183-189 | `with_no` is only for yes/no builders; it sets the no button |
| CushyDialog.BuilderKinds | src/dialog.rs:122-189 | a box built with `with_ok` stays OK/Cancel; one built with `with_yes` and `with_no` is yes/no with those buttons |
| CushyDialog.BoxWithExplanation | src/dialog.rs:229-235 | a finished box's `with_explanation` does what the builder's does |
| CushyDialog.BoxAsWarning | src/dialog.rs:237-244 | a finished box's `warning` does what the builder's does |
| CushyDialog.BoxAsError | src/dialog.rs:246-253 | a finished box's `error` does what the builder's does |
| CushyDialog.BoxWithCancel | src/dialog.rs:255-260 | a finished box's `with_cancel` does what the builder's does |
| CushyDialog.CoalesceEmpty | src/dialog.rs:275-281 | `coalesce_empty` returns the second string exactly when the first is empty |
| CushyDialog.CoalesceEmptyProperties | src/dialog.rs:275-281 | with a nonempty default the result is nonempty, and coalescing twice changes nothing |
| CushyDialog.ModalButtonsFor | src/dialog.rs:283-325 | a `Modal` shows the affirmative button as "OK" or "Yes" by default, a "No" button only on yes/no boxes that have one, and a "Cancel" button when the box has one; custom captions win, and each shown button runs its own callback |
| CushyDialog.ModalCaptionsNeverEmpty | src/dialog.rs:283-325 | every button a `Modal` shows has a caption, and a plain message shows a single "OK" button |
| CushyNativeDialog.RfdLevelOf | src/dialog/native.rs:64-72 | each level maps to the native level of the same name |
| CushyNativeDialog.AsRfdButtons | src/dialog/native.rs:14-61 | the native button set is chosen for every box except a yes/no box without a no button, which panics |
| CushyNativeDialog.DecisionTable | src/dialog/native.rs:14-61 | OK boxes become `Ok`, `OkCustom`, `OkCancel` or `OkCancelCustom` by whether they have a cancel button and custom captions; yes/no boxes without custom captions become `YesNo` or `YesNoCancel`; custom tables fill in "OK", "Yes", "No" and "Cancel" |
| CushyNativeDialog.StandardAnswers | src/dialog/native.rs:121-151 | OK and Yes run the affirmative button, No the no button, and Cancel the cancel button or, on a yes/no box without one, the no button |
| CushyNativeDialog.CustomCaptionsDispatch | src/dialog/native.rs:152-175 | with the corrected caption defaults, answering with any shown caption runs the button shown with it, provided the shown captions differ |
| CushyNativeDialog.CancelCaptionAsWrittenPanics | src/dialog/native.rs:22-31 | as written, an uncaptioned cancel button beside a custom yes caption is shown as "Yes", and choosing it panics because no button matches |
| CushyNativeDialog.NoCaptionAsWrittenChoosesNegative | src/dialog/native.rs:160-165 | as written, a cancel button captioned "No" beside a custom no caption runs the no button |
| CushyNativeDialog.CorrectionsKeepDefaults | src/dialog/native.rs:14-177 | the corrections change nothing for boxes that use only default captions, nor for standard answers |
| GooeyBrowserCss.WidgetCssId | frontends/browser/src/utils.rs:11-13 | the element id of a widget starts with "goo-" and is longer than that prefix |
| GooeyBrowserCss.WidgetCssIdRoundTrip | frontends/browser/src/utils.rs:11-13 | the widget id is read back from the decimal digits after "goo-", so distinct widgets get distinct element ids |
| GooeyBrowserCss.ForId | frontends/browser/src/utils.rs:93-98 | a new block selects the widget's element by id ("#" and its element id) and holds no statements |
| GooeyBrowserCss.WithCssStatement | frontends/browser/src/utils.rs:100-103 | the selector is kept and the statement goes after the existing ones |
| GooeyBrowserCss.Fmt | frontends/browser/src/utils.rs:106-116 | writing the block yields the selector, "{", every statement followed by ";" in order, and "}" |
| GooeyBrowserCss.BuildKeepsOrder | frontends/browser/src/utils.rs:93-103 | adding statements one by one to a block for a widget gives its id selector and exactly those statements, in the order given |
| GooeyBrowserCss.BodyRoundTrip | frontends/browser/src/utils.rs:106-116 | statements without semicolons are recovered from the rendered body by cutting at semicolons |
| GooeyBrowserCss.BlockForWidget | frontends/browser/src/utils.rs:93-116 | a block built for a widget renders as "#goo-", the id's digits, and the braced statements, which can be read back |
| CushyShortcuts.IntoVariations | src/widgets/shortcuts.rs:92-113 | the shortcut itself comes first; a second variation exists exactly for logical character keys, with the same modifiers and the uppercase text when the text is already lowercase, the lowercase otherwise |
| CushyShortcuts.Shortcuts.constructor | src/widgets/shortcuts.rs:23-28 | a new widget has no shortcuts |
| CushyShortcuts.Shortcuts.InsertShortcut | src/widgets/shortcuts.rs:67-82 | both variations are stored with the same config, the shortcut itself written last, and no other entry changes |
| CushyShortcuts.Shortcuts.WithShortcut | src/widgets/shortcuts.rs:35-46 | the shortcut maps to a non-repeating config with the callback, and every earlier shortcut is still present |
| CushyShortcuts.Shortcuts.WithRepeatingShortcut | src/widgets/shortcuts.rs:54-65 | the shortcut maps to a repeating config with the callback, and every earlier shortcut is still present |
| CushyShortcuts.KeyboardDispatch | src/widgets/shortcuts.rs:190-223 | an event is handled exactly when its physical or its logical shortcut is registered; a release invokes nothing; every invoked callback belongs to a matching shortcut and, on a repeat, to one that allows repeats; at most two callbacks run |
| CushyShortcuts.CharacterShortcutMatchesBothCases | src/widgets/shortcuts.rs:67-113 | after inserting a character shortcut written in one case, both its lowercase and its uppercase key map to the config |
| CushyShortcuts.PressInvokesRegisteredCallback | src/widgets/shortcuts.rs:67-220 | a fresh press of such a key, in either case, with no physical match, is handled and invokes exactly the registered callback |
| CushyShortcuts.ReleaseAndRepeatAreSwallowed | src/widgets/shortcuts.rs:205-220 | a release, or a repeat whose matching shortcuts do not repeat, is handled but invokes nothing |
| CushyShortcuts.DistinctMatchesBothFire | src/widgets/shortcuts.rs:205-214 | when the physical and logical matches have different callbacks, a fresh press invokes both, the physical one first |
| CushyAnimation.SaturatingAdd | src/animation.rs:225 | adding durations gives the sum, or `Duration::MAX` when the sum would overflow, and never less than either operand |
| CushyAnimation.Lerp | src/animation.rs:347-377 | integer interpolation stays between the start and the target, gives the start at progress 0 and the target at progress 1 |
| CushyAnimation.RoundedShare | src/animation.rs:367-374 | the rounded share of a distance never exceeds the distance, is 0 at progress 0 and the whole distance at progress 1 |
| CushyAnimation.IntegerLerps | src/animation.rs:392-410 | halfway interpolation from the minimum to the maximum gives 128 for `u8` and 0 for `i8` and `i32` |
| CushyAnimation.RunningAnimation.IntoAnimate | src/animation.rs:154-160 | a running animation starts from the target's current value with no time elapsed |
| CushyAnimation.RunningAnimation.Animate | src/animation.rs:224-239 | elapsed time accumulates with saturation; at or past the duration the target gets the end value and the excess time is returned as `Break`, otherwise it gets the interpolated value and the result is `Continue` |
| CushyAnimation.AnimateStaysInRange | src/animation.rs:224-239 | after any step the target lies between the start and end values, and the animation breaks exactly when the accumulated time reaches the duration |
| CushyAnimation.RunningChain.IntoAnimate | src/animation.rs:312-315 | a running chain starts the first animation from its target's current value and keeps the second waiting |
| CushyAnimation.RunningChain.Animate | src/animation.rs:318-338 | steps go to the first animation until it completes; in that same call the second starts from the target's value at that moment and runs for the leftover time; later steps go to the second animation only |
| CushyAnimation.ChainInOneStep | src/animation.rs:318-338 | two chained 10 ms animations of one value given 25 ms at once both finish, leaving 5 ms and the second end value |
| CushyAnimation.FilterMembership | src/animation.rs:42-50 | the running ids kept after a pass are exactly those that continue |
| CushyAnimation.FilterIncreasing | src/animation.rs:42-50 | removing members keeps the running set sorted |
| CushyAnimation.FilterRunning | src/animation.rs:42-50 | the index loop that removes completed members and steps over the rest leaves exactly the continuing ids, in order |
| CushyAnimation.Animating.constructor | src/animation.rs:71-77 | new shared state holds no animations, nothing running and no last update |
| CushyAnimation.Animating.Spawn | src/animation.rs:79-89 | a spawned animation gets a fresh id, is stored and added to the running set, and the handle holds that id; the thread is woken only when nothing was running |
| CushyAnimation.Animating.RemoveAnimation | src/animation.rs:91-94 | the id leaves both the animations and the running set and nothing else changes |
| CushyAnimation.Animating.Tick | src/animation.rs:36-50 | a pass measures the time since the last pass (zero on the first), records the current time, and keeps exactly the continuing animations running, in order |
| CushyAnimation.Animating.Idle | src/animation.rs:31-35 | with nothing running the last update time is forgotten |
| CushyAnimation.AnimationHandle.constructor | src/animation.rs:262-265 | a new handle refers to no animation |
| CushyAnimation.AnimationHandle.Clear | src/animation.rs:270-281 | clearing takes the id and removes that animation; a handle without an id changes nothing |
| CushyAnimation.ClearIsIdempotent | src/animation.rs:270-281 | spawning and then clearing a handle twice leaves the shared state as it was before the spawn |
| GooeyLayout.PercentWithinContent | widgets/src/layout.rs:314-321 | a percentage between 0 and 1 of a non-negative content length is a length between 0 and the content length, and 100% is the whole of it |
| GooeyLayout.DefaultLayout | widgets/src/layout.rs:172-180 | every dimension of the default layout is `Auto` |
| GooeyLayout.WithLeft | widgets/src/layout.rs:183-186 | `left` takes the new dimension and no other field changes |
| GooeyLayout.WithRight | widgets/src/layout.rs:188-191 | `right` takes the new dimension and no other field changes |
| GooeyLayout.WithTop | widgets/src/layout.rs:193-196 | `top` takes the new dimension and no other field changes |
| GooeyLayout.WithBottom | widgets/src/layout.rs:198-201 | `bottom` takes the new dimension and no other field changes |
| GooeyLayout.WithWidth | widgets/src/layout.rs:203-206 | `width` takes the new dimension and no other field changes |
| GooeyLayout.WithHeight | widgets/src/layout.rs:208-211 | `height` takes the new dimension and no other field changes |
| GooeyLayout.SettersCommuteAndOverride | widgets/src/layout.rs:183-211 | setters of different fields commute and a later setter of the same field wins |
| GooeyLayout.SurroundInPoints | widgets/src/layout.rs:213-261 | left and right are measured against the content width, top and bottom against the content height |
| GooeyLayout.SizeInPoints | widgets/src/layout.rs:239-269 | an `Auto` width or height is 0; any other is its measured length |
| GooeyLayout.DefaultLayoutIsEmpty | widgets/src/layout.rs:213-269 | the default layout has no sides and a zero size whatever the content |
| GooeyLayout.ChildrenMap.constructor | widgets/src/layout.rs:99-106 | a new children map is empty |
| GooeyLayout.ChildrenMap.Insert | widgets/src/layout.rs:115-120 | the child is stored under its id, and a given key is made to name that id; without a key the keys are unchanged |
| GooeyLayout.ChildrenMap.Remove | widgets/src/layout.rs:109-113 | an unknown key changes nothing and yields nothing; a known key is forgotten and the child under its id is removed and returned, if it is still there |
| GooeyLayout.ChildrenMap.LayoutChildren | widgets/src/layout.rs:281-283 | the children listed are exactly the stored ones |
| GooeyLayout.ChildrenMap.ChildByWidgetId | widgets/src/layout.rs:285-287 | a child is found exactly when one is stored under the id, and it is among the listed children |
| GooeyLayout.InsertThenRemove | widgets/src/layout.rs:109-120 | a child inserted with a key is removed by that key, leaving neither the key nor its id |
| GooeyLayout.ReinsertKeepsEarlierChild | widgets/src/layout.rs:109-120 | inserting a second child under a key in use moves the key; removing by the key then removes the second child while the first stays stored |
| GooeyLayout.Layout.Finish | widgets/src/layout.rs:161-165 | a finished builder yields a layout over the collected children, with no commands sent |
| GooeyLayout.Layout.InsertRegistration | widgets/src/layout.rs:53-71 | the child is announced with `ChildAdded`, then stored by id and by its key, if any |
| GooeyLayout.Layout.RemoveChild | widgets/src/layout.rs:27-40 | the result is true, and `ChildRemoved` is sent, exactly when the key names a stored child; the key is forgotten either way |
| GooeyClasses.Classes.constructor | crates/gooey-core/src/style/classes.rs:21-28 | a new list stores no class and satisfies the list invariant |
| GooeyClasses.Classes.Len | crates/gooey-core/src/style/classes.rs:100-102 | the number of index entries equals the number of stored names |
| GooeyClasses.Classes.IsEmpty | crates/gooey-core/src/style/classes.rs:105-107 | an empty index means that no name is stored, and the converse holds |
| GooeyClasses.Classes.Contains | crates/gooey-core/src/style/classes.rs:81-83 | a name is indexed exactly when it is stored |
| GooeyClasses.Classes.Get | crates/gooey-core/src/style/classes.rs:110-112 | a name is returned exactly for an index below the length, and it is the name at that position |
| GooeyClasses.Classes.Push | crates/gooey-core/src/style/classes.rs:40-50 | a stored name is refused and nothing changes; a new name is appended; the invariant (distinct names, each indexed under its slot id) is kept |
| GooeyClasses.Classes.Insert | crates/gooey-core/src/style/classes.rs:57-68 | for an index not past the end, a stored name is refused and nothing changes; a new name is spliced in at that index; the invariant is kept |
| GooeyClasses.Classes.Remove | crates/gooey-core/src/style/classes.rs:70-78 | a stored name is returned, its one position is closed up and it leaves the index; another name changes nothing; the invariant is kept |
| GooeyClasses.Classes.IndexCovered | crates/gooey-core/src/style/classes.rs:14-17 | every indexed name is stored, because the index has as many entries as there are distinct stored names |
| Common.InsertKeepsDistinct | crates/gooey-core/src/style/classes.rs:60-65 | splicing in a name that is not stored keeps the stored names distinct |
| GooeyClasses.InsertKeepsIndex | crates/gooey-core/src/style/classes.rs:60-65 | after the splice, each stored name is indexed under the id of its own slot, and the fresh id is the largest |
| GooeyClasses.RemoveKeepsIndex | crates/gooey-core/src/style/classes.rs:72-76 | after a slot and its name are removed, the remaining names are distinct, each still indexed under its own slot id, and the index shrinks by one |
| GooeyClasses.DistinctWithin | crates/gooey-core/src/style/classes.rs:14-17 | distinct names that all belong to a set number at most its size |
| GooeyClasses.ContainsAllIsSubset | crates/gooey-core/src/style/classes.rs:86-92 | comparing the size of the shared index with the other list's length is true exactly when every name of the other list is stored in this one |
| GooeyClasses.SubsetCardinality | crates/gooey-core/src/style/classes.rs:86-92 | a subset is no larger than its superset, so a missing name makes the shared part smaller |
| GooeyClasses.ClassesTest | crates/gooey-core/src/style/classes.rs:200-218 | a second push of "a" is refused, giving [a, b]; inserting c at 0 gives [c, a, b]; removing a succeeds and gives [c, b] |
| GooeyClasses.DedupKeepsNamesOnce | crates/gooey-core/src/style/classes.rs:146-155 | deduplication keeps every name of the input, adds none, and leaves no repeats |
| GooeyClasses.FromNames | crates/gooey-core/src/style/classes.rs:146-155 | collecting names pushes each in turn, so the list holds the input names once each, in order of first occurrence |
| GooeyClasses.WrappedIntoIter.constructor | crates/gooey-core/src/style/classes.rs:134-142 | iterating a shared list starts at the first name and records its length |
| GooeyClasses.WrappedIntoIter.Next | crates/gooey-core/src/style/classes.rs:182-195 | as written: a name is yielded and the position advances only when the position plus one is below the length; otherwise nothing is yielded and the position stays |
| GooeyClasses.CollectWrapped | crates/gooey-core/src/style/classes.rs:182-195 | as written, draining the shared iterator yields every name but the last |
| GooeyClasses.SharedIterationLosesLast | crates/gooey-core/src/style/classes.rs:182-195 | the shared list [a, b] iterates as [a] alone |
| GooeyClasses.WrappedIntoIter.NextCorrected | crates/gooey-core/src/style/classes.rs:182-195 | corrected: the name at the position is yielded whenever the position is below the length |
| GooeyClasses.CollectCorrected | crates/gooey-core/src/style/classes.rs:182-195 | with the corrected `next`, draining the shared iterator yields every name in order |
| GooeyStyleSheet.NewClasses | core/src/styles/style_sheet.rs:249-259 | the class set is accepted exactly when every character of every name is a letter, digit, `_` or `-`, and is then kept unchanged; otherwise the call fails (the panic) |
| GooeyStyleSheet.MergeClasses | core/src/styles/style_sheet.rs:313-318 | merging class sets keeps every class of both and adds none |
| GooeyStyleSheet.ClassesMergeTest | core/src/styles/style_sheet.rs:333-343 | {a, b, c} merged with {c, b, a} is {a, b, c}; {a, c, d, e} merged with {b, d, f} is {a, b, c, d, e, f} |
| GooeyStyleSheet.MergeStyles | core/src/styles/style_sheet.rs:391-407 | the merged style keeps every component of the style itself, takes the other's missing components (only inherited ones when inheriting) and nothing else; class sets are united, except when inheriting, which keeps the style's own classes |
| GooeyStyleSheet.StyleMergeTest | core/src/styles/style_sheet.rs:391-407 | classes "a" merged with "b" give {a, b}, and give {a} when inheriting |
| GooeyStyleSheet.CheckOneState | core/src/styles/style_sheet.rs:214-216 | there is no answer without a condition; with a condition the answer is whether the state equals it |
| GooeyStyleSheet.ClassesApplyIsSubset | core/src/styles/style_sheet.rs:204-211 | a rule without classes passes the class test; a rule with classes passes only when classes are given and include all of its own |
| GooeyStyleSheet.FirstConditionDecides | core/src/styles/style_sheet.rs:196-202 | only the first state condition given, in the order hovered, focused, active, decides; the later conditions may be anything; with no condition only the classes matter |
| GooeyStyleSheet.HoveredRuleIgnoresFocus | core/src/styles/style_sheet.rs:196-202 | a rule requiring hovered and focused applies to a hovered element that is not focused |
| GooeyStyleSheet.IndicesOfMembers | core/src/styles/style_sheet.rs:61-68 | a position is listed under a widget type exactly when the rule there is for that type, and the list is strictly increasing |
| GooeyStyleSheet.IndicesOfAppend | core/src/styles/style_sheet.rs:73-87 | the positions of appended rules follow those of the first rules, shifted by how many the first rules are |
| GooeyStyleSheet.ShiftAppend | core/src/styles/style_sheet.rs:80-84 | shifting positions distributes over concatenation |
| GooeyStyleSheet.StyleSheet.constructor | core/src/styles/style_sheet.rs:13-20 | a default sheet has no rules and an empty index |
| GooeyStyleSheet.StyleSheet.Push | core/src/styles/style_sheet.rs:61-68 | the rule goes last, its position is appended to its widget type's list, no other list changes, and the index still lists the positions of each type's rules |
| GooeyStyleSheet.ShiftedUnion | core/src/styles/style_sheet.rs:80-84 | each widget type's list is the base list followed by the added list shifted by the offset |
| GooeyStyleSheet.StyleSheet.MergeWith | core/src/styles/style_sheet.rs:73-87 | a new sheet holds the other sheet's rules and then this sheet's; each type lists the other's positions and then this sheet's shifted past them; the new index is consistent |
| GooeyStyleSheet.StyleSheet.EffectiveStyleFor | core/src/styles/style_sheet.rs:28-49 | the result is the style with the candidate rules applied from the highest position down |
| GooeyStyleSheet.CandidatesAreRules | core/src/styles/style_sheet.rs:29-39 | the candidates are, in increasing order and once each, exactly the positions of the rules for the widget type or for any widget |
| GooeyStyleSheet.ApplyFromLast | core/src/styles/style_sheet.rs:41-47 | visiting the candidates from the last down and merging each applying rule under the style yields the rules applied in descending order |
| GooeyStyleSheet.ApplyRulesPrefersStyle | core/src/styles/style_sheet.rs:23-27 | applying rules keeps every component the style already had, never drops a class, and adds only components of the visited rules |
| GooeyStyleSheet.FirstApplyingRuleWins | core/src/styles/style_sheet.rs:41-47 | the first visited rule (the highest position) that applies provides each component it has that the style lacks |
| GooeyStyleSheet.InsertSortedSpec | core/src/styles/style_sheet.rs:38-39 | placing a value keeps the sequence strictly increasing and adds just that value |
| GooeyStyleSheet.SortedDistinctSpec | core/src/styles/style_sheet.rs:38-39 | sorting and de-duplicating gives a strictly increasing sequence with exactly the input's values |
| GooeyStyleSheet.Reversed | core/src/styles/style_sheet.rs:41 | the reversed sequence has the same length and holds the elements in the opposite order |
| GooeyStyleSheet.ReversedSnoc | core/src/styles/style_sheet.rs:41 | reversing after appending puts the new element first |
| GooeyStyleLibrary.ClassKeysMembers | crates/gooey-core/src/style.rs:244-246 | the class keys of a class list are one per class and nothing else, and distinct classes give distinct keys |
| GooeyStyleLibrary.KeysOfDistinct | crates/gooey-core/src/style.rs:233-247 | the keys collected for a pattern (id, widget, classes) contain no key twice, so the pattern is pushed once per key |
| GooeyStyleLibrary.KeysOfMembers | crates/gooey-core/src/style.rs:238-246 | a pattern is indexed under exactly its id, its widget and each of its classes |
| GooeyStyleLibrary.PositionsMembers | crates/gooey-core/src/style.rs:248-254 | a pattern id is listed under a key exactly when that pattern has the key |
| GooeyStyleLibrary.PositionsDistinct | crates/gooey-core/src/style.rs:248-254 | no pattern id is listed twice under one key |
| GooeyStyleLibrary.PositionsSnoc | crates/gooey-core/src/style.rs:247-254 | pushing a pattern appends its id to the list of each key it has and to no other |
| GooeyStyleLibrary.Library.constructor | crates/gooey-core/src/style.rs:224-230 | a new library has no patterns and an empty index |
| GooeyStyleLibrary.Library.Push | crates/gooey-core/src/style.rs:232-256 | the pattern gets the next id and is appended; that id is appended to the list of each key the pattern has, other lists are unchanged, and the index still lists under each key exactly the patterns having it |
| GooeyStyleLibrary.IndexUnder | crates/gooey-core/src/style.rs:248-254 | for distinct keys, the id is appended once to each key's list (created when missing) and every other list is unchanged |
| GooeyStyleLibrary.IndexMembers | crates/gooey-core/src/style.rs:232-256 | in a library built by `push`, a pattern is found under a key exactly when it has that key |
| GooeyStyleLibrary.Matches.constructor | crates/gooey-core/src/style.rs:259-274 | `patterns_matching` starts in the `Start` state with nothing matched, over the library's patterns and index |
| GooeyStyleLibrary.Matches.Step | crates/gooey-core/src/style.rs:290-384 | one pass of the loop either yields the next id of what remains, reports the end, or moves to a state of lower rank with the same ids still to come |
| GooeyStyleLibrary.Matches.Next | crates/gooey-core/src/style.rs:288-387 | `next` yields the first id still to come and removes exactly it; at the end it yields nothing, and keeps yielding nothing |
| GooeyStyleLibrary.Matches.Collect | crates/gooey-core/src/style.rs:285-387 | draining the iterator gives exactly the ids still to come, in order |
| GooeyStyleLibrary.PatternsMatching | crates/gooey-core/src/style.rs:259-274 | collecting `patterns_matching` gives the query's matching ids: by id if an id is given, else by widget, else by classes, else none |
| GooeyStyleLibrary.FilterIdMembers | crates/gooey-core/src/style.rs:318-331 | the id scan keeps exactly the listed patterns whose widget equals the query's widget and whose classes the query's classes contain |
| GooeyStyleLibrary.FilterWidgetMembers | crates/gooey-core/src/style.rs:332-345 | the widget scan keeps exactly the listed patterns that have no id and whose classes the query's classes contain |
| GooeyStyleLibrary.ScanIdsMembers | crates/gooey-core/src/style.rs:346-371 | the class scan yields each passing pattern (no id, no widget, classes contained) found in the current list or under a remaining class exactly once, and never one already matched |
| GooeyStyleLibrary.ScanClassesMembers | crates/gooey-core/src/style.rs:372-383 | from the remaining classes on, the scan yields each passing pattern listed under any of them exactly once, and never one already matched |
| GooeyStyleLibrary.NoCriteriaNoMatches | crates/gooey-core/src/style.rs:313-317 | a query with no id, no widget and no classes matches nothing |
| GooeyStyleLibrary.IdQueryMatches | crates/gooey-core/src/style.rs:293-331 | an id query yields exactly the patterns with that id whose widget equals the query's (both absent or the same) and whose classes the query's classes contain |
| GooeyStyleLibrary.WidgetQueryMatches | crates/gooey-core/src/style.rs:303-345 | a widget query without id yields exactly the patterns for that widget that have no id and whose classes the query's classes contain |
| GooeyStyleLibrary.ClassesQueryMatches | crates/gooey-core/src/style.rs:313-383 | a classes-only query yields, each once, exactly the patterns with no id and no widget whose classes are all among the query's and share at least one with it (a pattern with no selector at all is never found) |
| GooeyStyleLibrary.Round | crates/gooey-core/src/style.rs:100-106 | `round` gives an integer within one half of its argument |
| GooeyStyleLibrary.SaturatingU8 | crates/gooey-core/src/style.rs:102-106 | the `as u8` cast keeps values in 0..=255 and clamps others to 0 or 255 |
| GooeyStyleLibrary.IntoRgba | crates/gooey-core/src/style.rs:89-109 | an RGBA colour gives back its own bytes; an HSL colour's alpha byte is its alpha scaled to 255, rounded and clamped |
| GooeyStyleLibrary.ChannelScale | crates/gooey-core/src/style.rs:100-106 | a full channel is 255, an empty one 0, a half 128, and channels between 0 and 1 never need clamping |
| GooeyStyleLibrary.TestLibrary | crates/gooey-core/src/style.rs:421-435 | pushing the test's four patterns gives a valid library holding exactly them |
| GooeyStyleLibrary.TestPositions | crates/gooey-core/src/style.rs:421-435 | each key lists, in order, those of the four test patterns that have it |
| GooeyStyleLibrary.TestLookups | crates/gooey-core/src/style.rs:421-435 | in the test library the id lists patterns 0 and 3, the widget 1 and 3, classes a and b 2 and 3, and c nothing |
| GooeyStyleLibrary.TestIdAndWidgetMatches | crates/gooey-core/src/style.rs:436-445 | the id query matches only the id pattern and the widget query only the widget pattern |
| GooeyStyleLibrary.TestClassesMatches | crates/gooey-core/src/style.rs:447-470 | a, b match only the classes pattern, once; so do a, b, c; a alone matches nothing |
| GooeyStyleLibrary.PatternMatchingTest | crates/gooey-core/src/style.rs:419-471 | the test's five queries over the library built by `push` collect [0], [1], [2], [2] and nothing |
| RasterState.DurationUntilNextRedraw | frontends/rasterizer/src/state.rs:81-91 | no redraw is pending exactly when the window is clean; a dirty window or a passed instant gives zero, a future instant the time left |
| RasterState.ScheduleProperties | frontends/rasterizer/src/state.rs:170-181 | scheduling never cleans a window and never makes the next redraw later; two requests commute and repeating one changes nothing |
| RasterState.ReplayAppend | frontends/rasterizer/src/state.rs:229-250 | replaying a focus log extended by more events replays the extension from the log's result |
| RasterState.SwitchReplays | frontends/rasterizer/src/state.rs:229-240 | logging Focused(new) then Blurred(old) after a log that replays to the old focus replays to the new focus |
| RasterState.TabCmpAntisymmetric | frontends/rasterizer/src/state.rs:487-503 | comparing two tab entries the other way round reverses the ordering, and an entry equals itself |
| RasterState.TabCmpNotTransitive | frontends/rasterizer/src/state.rs:487-503 | three entries without tab indices that the comparison orders in a cycle, so it is not a total order |
| RasterState.TabCmpByBandIsOrder | frontends/rasterizer/src/state.rs:487-503 | comparing y by 10-unit bands is antisymmetric and transitive |
| RasterState.TabCmpByBandAgrees | frontends/rasterizer/src/state.rs:487-503 | the band comparison agrees with the comparison as written on explicit tab indices, on entries 10 or more apart vertically and within one band |
| RasterState.BandMonotone | frontends/rasterizer/src/state.rs:494-500 | origins 10 or more apart vertically fall in bands in the same order |
| RasterState.RenderedKeepsIndex | frontends/rasterizer/src/state.rs:385-394 | after appending a widget to the render order, every id still points at a place holding it, the widget's at the new place |
| RasterState.RenderedKeepsTabEntries | frontends/rasterizer/src/state.rs:369-376 | a new tab entry at the next render index keeps every tab entry pointing at a place in the order that holds its widget |
| RasterState.WindowState.constructor | frontends/rasterizer/src/state.rs:95-100 | a new state has empty tables, no focus, hover or active widget, a clean status and a light theme |
| RasterState.WindowState.NewFrame | frontends/rasterizer/src/state.rs:350-359 | the render order, tab entries, ids, hierarchy and areas are emptied, default and cancel cleared and the window clean; the index invariant is kept |
| RasterState.WindowState.WidgetRendered | frontends/rasterizer/src/state.rs:361-395 | the widget is appended to the order, its id maps to that index and its area, it is listed last under its parent, a focusable widget gets a tab entry at that index, and an intent sets default or cancel; ids and tab entries keep pointing into the order |
| RasterState.WindowState.SetNeedsRedraw | frontends/rasterizer/src/state.rs:150-153 | the window is dirty |
| RasterState.WindowState.ScheduleRedrawAt | frontends/rasterizer/src/state.rs:170-181 | a clean window is scheduled at the instant, a dirty one stays dirty, a scheduled one keeps the earlier instant |
| RasterState.WindowState.SetHover | frontends/rasterizer/src/state.rs:203-209 | a different hover set is stored and dirties the window; the same set changes nothing |
| RasterState.WindowState.SetActive | frontends/rasterizer/src/state.rs:216-222 | a different active widget is stored and dirties the window; the same one changes nothing |
| RasterState.WindowState.SetSystemTheme | frontends/rasterizer/src/state.rs:284-290 | a different theme is stored and dirties the window; the same one changes nothing |
| RasterState.WindowState.SetFocus | frontends/rasterizer/src/state.rs:229-240 | a different focus logs Focused(new) then Blurred(old), is stored and dirties the window; the same focus changes nothing; the log still replays to the focus |
| RasterState.WindowState.Blur | frontends/rasterizer/src/state.rs:242-250 | a focused window logs Blurred(old), loses its focus and is dirtied; an unfocused one is unchanged |
| RasterState.WindowState.BlurAndDeactivate | frontends/rasterizer/src/state.rs:252-261 | with a focus or an active widget, the focus is blurred and logged, nothing is active and the window is dirty; otherwise nothing changes |
| RasterState.WindowState.FocusEvents | frontends/rasterizer/src/state.rs:274-277 | the pending focus events are returned in order and the log is emptied; replaying them from the last drained focus gives the current focus |
| RasterState.WindowState.RegisterMouseHandler | frontends/rasterizer/src/state.rs:292-295 | the button's handler becomes the widget, the others are kept |
| RasterState.WindowState.TakeMouseButtonHandler | frontends/rasterizer/src/state.rs:297-300 | the button's handler is returned exactly when one was registered, and it is removed |
| RasterState.WindowState.UiStateFor | frontends/rasterizer/src/state.rs:307-314 | a widget is hovered when in the hover set, active and focused when it is the active and focused widget |
| RasterState.RenderAll | frontends/rasterizer/src/state.rs:350-395 | rendering a list of widgets from a new frame makes the order that list, maps exactly the rendered ids and gives tab entries exactly to the focusable ones |
| RasterState.Add | frontends/rasterizer/src/lib.rs:441-452 | the sum needs a redraw when either side does and is processed when either side is |
| RasterState.AddMonoid | frontends/rasterizer/src/lib.rs:432-452 | ignored is the identity of the sum, which is commutative, associative and idempotent; processed plus redraw is redraw |
| RasterState.UpdateHover | frontends/rasterizer/src/lib.rs:249-265 | a changed hover set notifies the widgets that left it and those that entered it, stores it and asks for a redraw; an unchanged set is processed with no notification |
| RasterState.HoverNotificationsRebuild | frontends/rasterizer/src/lib.rs:249-265 | the notified sets turn the old hover set into the new one and no widget is notified both ways |
| RasterTimer.InsertKeepsSorted | frontends/rasterizer/src/timer.rs:81-86 | inserting a timer at a place between the earlier and the later ones keeps the queue sorted by due instant |
| RasterTimer.BinarySearch | frontends/rasterizer/src/timer.rs:82-84 | the search finds a timer due at the instant, or reports that none is; either index is a place where the timer can be inserted in order |
| RasterTimer.DueCount | frontends/rasterizer/src/timer.rs:61-62 | the timers taken off the front are the leading ones due at `now`; the next one, if any, is not due |
| RasterTimer.DueCountSorted | frontends/rasterizer/src/timer.rs:54-62 | in a sorted queue a timer is due exactly when it is among the leading ones taken off |
| RasterTimer.FiredMembers | frontends/rasterizer/src/timer.rs:61-72 | the callbacks fired are exactly those of due timers still alive, at most one per due timer |
| RasterTimer.RescheduledMembers | frontends/rasterizer/src/timer.rs:67-70 | only alive repeating timers come back, each due one period after `now` |
| RasterTimer.RescheduledLater | frontends/rasterizer/src/timer.rs:59-73 | with positive periods, after the due timers are handled no timer in the queue is due at `now` |
| RasterTimer.DurationUntilNextTimer | frontends/rasterizer/src/timer.rs:120-129 | an empty queue gives `Ok(None)`, an overdue first timer `Err`, otherwise the time left until the first timer |
| RasterTimer.WaitUntilEarliest | frontends/rasterizer/src/timer.rs:120-129 | on a sorted queue no timer is due before the waiting time ends |
| RasterTimer.NextEvent | frontends/rasterizer/src/timer.rs:100-113 | a timer is handled when one is overdue or the wait timed out; a command that arrives is returned; the thread stops only on disconnection while no timer is overdue |
| RasterTimer.AsWrittenStepSorted | frontends/rasterizer/src/timer.rs:61-70 | a turn of the elapsed-timer loop as written keeps the queue sorted |
| RasterTimer.AsWrittenStepKeepsZeroPeriod | frontends/rasterizer/src/timer.rs:61-70 | a turn of the loop as written keeps a due repeating zero-period timer in the queue |
| RasterTimer.AsWrittenZeroPeriodSpins | frontends/rasterizer/src/timer.rs:61-70 | while a due repeating timer with a zero period is queued, the loop as written finds a due timer first, and its turn keeps that situation, so the loop never ends |
| RasterTimer.TimerThread.constructor | frontends/rasterizer/src/timer.rs:55 | the thread starts with an empty, sorted queue |
| RasterTimer.TimerThread.ScheduleTimer | frontends/rasterizer/src/timer.rs:81-86 | the timer is inserted at a place that keeps the queue sorted, and the queue holds the old timers and the new one |
| RasterTimer.TimerThread.Fire | frontends/rasterizer/src/timer.rs:62-71 | a due timer fires when alive and is scheduled again one period after `now` when it repeats; the queue stays sorted |
| RasterTimer.TimerThread.FireAll | frontends/rasterizer/src/timer.rs:61-72 | the due timers fire in order, those alive once each, and the repeating ones join the queue again |
| RasterTimer.TimerThread.ProcessElapsed | frontends/rasterizer/src/timer.rs:59-73 | the due timers are taken off the front and fired in order, once each; the queue holds the others plus the rescheduled ones and stays sorted; with positive periods none is left due |
| RasterTimer.TimerThread.HandleEvent | frontends/rasterizer/src/timer.rs:57-78 | a command schedules its timer and fires nothing; a due timer runs the elapsed processing |
| RasterTimer.ScheduleExample | frontends/rasterizer/src/timer.rs:81-86 | timers scheduled out of order into an empty queue come out in the order they are due |
| CushyPile.RemoveFirst | src/widgets/pile.rs:36-46 | without the id in the queue the queue is unchanged; with it, the queue is one shorter |
| CushyPile.RemoveFirstMultiset | src/widgets/pile.rs:36-46 | exactly one occurrence of the id is taken away, if there is one, and every other id is kept |
| CushyPile.DistinctRemoveFirst | src/widgets/pile.rs:36-46 | in a queue without repeats, hiding an id removes it altogether and keeps exactly the other ids, still without repeats |
| CushyPile.PileData.HideId | src/widgets/pile.rs:36-46 | the scan finds the first occurrence of the id and removes it from the visible queue; an absent id leaves the queue unchanged |
| CushyPile.PileData.constructor | src/widgets/pile.rs:28-33 | a new pile has no slots, an empty visible queue and the focus flag clear, and satisfies the invariant |
| CushyPile.PileData.Front | src/widgets/pile.rs:117 | the widget shown is the front of the visible queue, and there is none exactly when the queue is empty |
| CushyPile.PileData.NewPending | src/widgets/pile.rs:53-60 | a fresh id, neither in a slot nor queued, gets an empty slot; the queue is unchanged and the invariant kept |
| CushyPile.PileData.Finish | src/widgets/pile.rs:168-176 | the widget is stored in its slot, and the id joins the back of the queue unless it is already queued, so no id is queued twice |
| CushyPile.PileData.ShowInner | src/widgets/pile.rs:202-207 | the visible queue becomes the id followed by the queue without it, the focus flag is set as asked, and the invariant is kept |
| CushyPile.ShowQueueFront | src/widgets/pile.rs:202-207 | after showing, the id is at the front exactly once and every other id is queued exactly when it was before |
| CushyPile.ShowKeepsInvariant | src/widgets/pile.rs:202-207 | showing an id handed out by the pile keeps the queue without repeats and, when the id has a slot, every queued id keeps a slot |
| CushyPile.PileData.Remove | src/widgets/pile.rs:210-217 | the focus flag is cleared exactly when the widget removed is the one shown; the id leaves the queue and the slots, and the invariant is kept |
| CushyPile.RemoveKeepsInvariant | src/widgets/pile.rs:210-217 | taking an id out of the queue and the slots keeps the invariant, leaves the id unqueued, and keeps a slot for every queued id |
| CushyPile.PileData.DropHandle | src/widgets/pile.rs:226-231 | dropping the last handle takes the id out of the queue and the slots and leaves the focus flag alone |
| CushyPile.Push | src/widgets/pile.rs:62-72 | the widget gets a fresh slot and its id joins the back of the queue; pushed onto an empty pile it is the widget shown |
| CushyPile.ShowFinishRemoveAsWritten | src/widgets/pile.rs:168-176 | a pending widget shown and then finished as written is queued twice, so after removal its id is still shown without a slot |
| CushyLayers.NextClockwise | src/widgets/layers.rs:768-779 | turning clockwise always changes the direction |
| CushyLayers.ClockwiseCycle | src/widgets/layers.rs:768-779 | from any direction, four turns visit Up, Right, Down and Left once each and come back to the start |
| CushyLayers.TurnedPeriodic | src/widgets/layers.rs:768-779 | turning clockwise is periodic with period four |
| CushyLayers.PositionNextClockwise | src/widgets/layers.rs:744-753 | a position has a next one exactly when it is relative to a side, and the next is a different side |
| CushyLayers.ClampAxis | src/widgets/layers.rs:472-480 | the clamped origin is the proposed origin raised to zero, but no further right than lets the overlay end within the available space; it is never negative when the overlay fits |
| CushyLayers.SideSearchAsWrittenNeverTurns | src/widgets/layers.rs:482-497 | as written, an overlap on the requested side always stops the search, so no other side is tried |
| CushyLayers.ChooseSide | src/widgets/layers.rs:437-498 | the corrected search ends on the requested side turned clockwise at most three times; every side passed overlaps, and the side chosen overlaps only when all four do; a window position is never searched |
| CushyLayers.SideSearchExample | src/widgets/layers.rs:482-497 | with only the right side taken, the corrected search places the overlay below, while the search as written stops on the right |
| CushyLayers.HoverTargetFrom | src/widgets/layers.rs:317-341 | the answer of `test_point` is never more than the number of overlays |
| CushyLayers.HoverTargetFromMeaning | src/widgets/layers.rs:317-341 | a positive answer is one past the first overlay that hides when unhovered and holds the point; 0 means none does and the point is outside the original widget of a non-empty stack; otherwise none |
| CushyLayers.IndexOfIdFromMeaning | src/widgets/layers.rs:808-810 | the index found is the first that holds the slot id, and none is found only when no overlay holds it |
| CushyLayers.AnchorBelow | src/widgets/layers.rs:376-383 | the anchor search from the top never goes above the new overlay |
| CushyLayers.AnchorBelowMeaning | src/widgets/layers.rs:371-384 | the anchor is the topmost overlay below the new one that holds the widget the new overlay is relative to; no overlay between them does |
| CushyLayers.ProcessStep | src/widgets/layers.rs:363-389 | one pass keeps at least the new overlays still waiting and never lengthens the stack |
| CushyLayers.ProcessStepPlacesAboveAnchor | src/widgets/layers.rs:362-391 | a pass keeps the overlays up to the anchor, puts the new overlay right above it and keeps the overlays above the new one; the anchor holds the widget the new overlay is relative to |
| CushyLayers.ProcessedKeepsNewest | src/widgets/layers.rs:362-391 | processing the new overlays never dismisses the newest one, which stays on top |
| CushyLayers.OverlayState.constructor | src/widgets/layers.rs:297-302 | a new layer has no overlays, none new and no hover |
| CushyLayers.OverlayState.Show | src/widgets/layers.rs:678-688 | the overlay is pushed on top with a fresh slot id, not yet laid out, and counted as new |
| CushyLayers.OverlayState.DismissAll | src/widgets/layers.rs:178-189 | every overlay is dismissed, none is new and nothing is hovered |
| CushyLayers.OverlayState.RemoveChildrenAfter | src/widgets/layers.rs:304-314 | exactly the overlays from `start` up are popped, and the new-overlay count drops by one per pop, saturating at zero |
| CushyLayers.OverlayState.TestPoint | src/widgets/layers.rs:317-341 | the scan answers what `HoverTarget` specifies |
| CushyLayers.OverlayState.Hover | src/widgets/layers.rs:258-277 | the hover becomes the `test_point` answer, and the overlays above it are removed exactly when the hover moved down the stack |
| CushyLayers.OverlayState.Unhover | src/widgets/layers.rs:279-294 | nothing is hovered, and the first overlay that hides when unhovered goes with everything above it; with none, the stack is unchanged |
| CushyLayers.OverlayState.DropHandle | src/widgets/layers.rs:804-817 | a dismissing handle removes every laid-out overlay from its own up and keeps the new ones; a stale id or a forgotten handle removes nothing |
| CushyLayers.OverlayState.FindDismissFrom | src/widgets/layers.rs:371-384 | the search from the top finds where dismissing starts, as `DismissFrom` specifies |
| CushyLayers.OverlayState.ProcessOne | src/widgets/layers.rs:363-389 | one pass lays out the oldest new overlay and removes the overlays between its anchor and it |
| CushyLayers.OverlayState.ProcessNewOverlays | src/widgets/layers.rs:362-391 | every new overlay is processed in turn, none is left new, and the invariant is kept |
| CushyLayers.ModalStack.constructor | src/widgets/layers.rs:900-905 | a new modal layer presents nothing |
| CushyLayers.ModalStack.Present | src/widgets/layers.rs:908-915 | the widget is pushed on top under a fresh id |
| CushyLayers.ModalStack.Dismiss | src/widgets/layers.rs:942-944 | everything presented is dismissed |
| CushyLayers.ModalStack.Visible | src/widgets/layers.rs:948-950 | the layer is visible exactly when something is presented |
| CushyLayers.IndexOf | src/widgets/layers.rs:1208-1213 | the index found holds the id and none before it does; none is found only when the id is absent |
| CushyLayers.ModalHandle.constructor | src/widgets/layers.rs:1190-1200 | a new handle presents nothing and remembers its layer and the handle it is above |
| CushyLayers.ModalHandle.Present | src/widgets/layers.rs:1205-1218 | above a handle whose widget is still shown, the stack is cut just above that widget and the new widget pushed; above a handle whose widget is gone, nothing changes and the handle holds no id; otherwise the stack is cleared first |
| CushyLayers.ModalHandle.Dismiss | src/widgets/layers.rs:1228-1237 | the handle's id is taken, and its widget goes with everything above it; without an id or with a stale one the stack is unchanged |
| CushyLayers.ModalHandle.Drop | src/widgets/layers.rs:1258-1263 | dropping the last handle that shares the id dismisses as `Dismiss` does; dropping any other changes nothing |
| CushyLayers.NestedModals | src/widgets/layers.rs:1205-1237 | an inner dialog is presented on top of the outer one; dismissing it leaves the outer one, and dismissing the outer one removes both |
| CushyWindow.Inverse | src/window.rs:1857-1862 | the inverse of a theme mode is always the other mode |
| CushyWindow.InverseInvolution | src/window.rs:1857-1876 | inverting (`inverse`, `!`, `toggle`) twice gives the mode back, and Light and Dark are each other's inverse |
| CushyWindow.ThemeRoundTrip | src/window.rs:1878-1894 | converting a mode to the windowing system's theme and back, or a theme to a mode and back, gives the original |
| CushyWindow.PercentBetween | src/window.rs:1896-1904 | a mode is at 0% or 100% of a range; at 0% exactly when the range is empty or the mode is its start, and at 100% when it is the end of a non-empty range |
| CushyWindow.RedrawAtKeepsEarliest | src/window.rs:2225-2235 | scheduling a redraw keeps whichever of the current target and the new moment comes first (`Now` before every instant, every instant before `Never`) |
| CushyWindow.RedrawAtCommutes | src/window.rs:2225-2235 | scheduling two moments gives the same target in either order |
| CushyWindow.VirtualWindowState.SetNeedsRedraw | src/window.rs:2217-2219 | after `set_needs_redraw` the target is `Now` |
| CushyWindow.VirtualWindowState.ScheduleRedraw | src/window.rs:2225-2235 | the new target is the earlier of the old one and the moment, and nothing later than either |
| CushyWindow.VirtualWindowState.Send | src/window.rs:2027-2031 | a command to a virtual window sets the redraw target to `Now`, sets the close request or replaces the title, and leaves the other two fields as they were |
| CushyWindow.RequestCloseFlag | src/window.rs:755-763 | a close once requested stays requested, and otherwise the window closes exactly when the behaviour agrees |
| CushyWindow.PendingWindow.Send | src/window.rs:2012-2024 | a command sent before the window opens is queued at the back, and one sent after goes straight to the window; everything sent is recorded in order |
| CushyWindow.PendingWindow.Open | src/window.rs:2081-2094 | opening delivers every queued command in the order sent and empties the queue, so the window has received exactly what was sent |
| CushyWindow.SendAroundOpen | src/window.rs:2012-2094 | two commands sent before opening and one after reach the window in the order they were sent |
| CushyWindow.MouseButtonMap.Press | src/window.rs:1675-1684 | a press taken by a handler records that handler for the device and button, keeping the device's other buttons; a press nobody takes changes nothing |
| CushyWindow.MouseButtonMap.Release | src/window.rs:1687-1696 | a release returns the handler of the press exactly when the button is recorded as pressed, removes it, and removes the device once it holds no button; otherwise nothing changes |
| CushyWindow.PressThenRelease | src/window.rs:1675-1696 | a release goes to the widget that handled the press, and leaves no device recorded |
| CushyCapture.AlignedBytesPerRow | src/window.rs:2785-2788 | the aligned row size is a multiple of 256 that holds the row and is less than 256 bytes larger |
| CushyCapture.AlignedIsLeast | src/window.rs:2785-2788 | no smaller multiple of 256 holds the row |
| CushyCapture.ColumnIsRemainder | src/window.rs:2496 | the column of a byte is its index modulo the row size, as the retain closure computes it |
| CushyCapture.ConvertRgba | src/window.rs:2491-2519 | an `Rgba8` frame without row padding is returned unchanged; otherwise the result is the bytes kept by the retain closure in order; and for a frame of whole rows it is each row packed to its first `width` pixels, without alpha for `Rgb8` |
| CushyCapture.RetainedWholeRows | src/window.rs:2491-2519 | over whole rows, the bytes the closure keeps are the rows one after another, each packed |
| CushyCapture.RowRetainedFull | src/window.rs:2494-2499 | within one row, the kept bytes are the first `width` pixels, each as red, green, blue and, for `Rgba8`, alpha |
| CushyCapture.PackedRowsLength | src/window.rs:2491-2519 | a frame of `rows` rows packs to `rows` times 3 or 4 bytes per pixel of `width` pixels |
| CushyCapture.PackedRowsUnpadded | src/window.rs:2510-2511 | packing unpadded `Rgba8` rows gives the frame back, which is why the pass may be skipped |
| CushyCapture.RgbaUnpaddedIsIdentity | src/window.rs:2510-2517 | without padding, the `Rgba8` retain closure keeps every byte, so skipping the pass gives the same bytes |
| GooeyTree.Without | crates/gooey-core/src/tree.rs:63-65 | the retained children are exactly those other than the dropped id, in order, and nothing changes when it is not among them |
| GooeyTree.WidgetTree.constructor | crates/gooey-core/src/tree.rs:15-24 | a new tree holds only its root node, which has no parent and no children |
| GooeyTree.WidgetTree.NewChild | crates/gooey-core/src/tree.rs:33-55 | the new node has a fresh id, records its parent and no children, and its id is appended to the parent's children; every parent and child link stays consistent |
| GooeyTree.WidgetTree.Drop | crates/gooey-core/src/tree.rs:59-71 | dropping a scope whose children were dropped first removes its node and its id from the parent's children, and keeps every link consistent |
| GooeyTree.DroppedKeepsLinked | crates/gooey-core/src/tree.rs:59-71 | after a leaf is dropped every node's parent still lists it and every listed child still names its parent |
| GooeyTree.DropUndoesNewChild | crates/gooey-core/src/tree.rs:33-71 | dropping the scope of a child right after `new_child` gives back the tree as it was |
| GooeyTree.NewChildThenDrop | crates/gooey-core/src/tree.rs:33-71 | creating a child scope and dropping it leaves the nodes unchanged |
| CushyTreeWidget.Remaining | src/widgets/tree.rs:325-333 | repeated `shift_remove` leaves a sequence no longer than the map's order, holding only keys of that order |
| CushyTreeWidget.RemainingMember | src/widgets/tree.rs:325-333 | a key survives the removals exactly when it was in the order and was not removed |
| CushyTreeWidget.RemainingDistinct | src/widgets/tree.rs:325-333 | removing keys keeps every remaining key once |
| CushyTreeWidget.RemainingTwice | src/widgets/tree.rs:325-333 | removing one more key after a set of keys is the same as removing them all at once, in the same order |
| CushyTreeWidget.ChildrenOfMember | src/widgets/tree.rs:347-358 | a key is among the children of `p` exactly when it is in the map and its parent is `p` |
| CushyTreeWidget.ChildrenOfAppend | src/widgets/tree.rs:347-358 | the children found in two parts of the order are the children of the first part followed by those of the second |
| CushyTreeWidget.ChildrenOfRemaining | src/widgets/tree.rs:325-358 | removing keys that are not children of `p` leaves the children of `p` unchanged |
| CushyTreeWidget.DescendantIsDeeper | src/widgets/tree.rs:183-186 | a node below another lies at a greater or equal depth, since each child is one level below its parent |
| CushyTreeWidget.InsertedChildren | src/widgets/tree.rs:212-216 | after a new key is inserted between two parts of the order, the children of any node are those of the first part, the new key when it is that node's child, then those of the second part |
| CushyTreeWidget.InsertKeepsWellFormed | src/widgets/tree.rs:174-222 | inserting a fresh key under an existing parent, one level below it, or as a root, and regenerating the parent's list, keeps the keys distinct, the map and order in step, the depths right and every list of children current |
| CushyTreeWidget.RemovedSubtreeKeeps | src/widgets/tree.rs:313-342 | removing a node with everything below it and regenerating its parent's list keeps the tree well formed, and the parent survives the removal |
| CushyTreeWidget.SubtreeRemoved | src/widgets/tree.rs:322-333 | once the stack is empty, every node below the removed node has been removed |
| CushyTreeWidget.WalkStep | src/widgets/tree.rs:324-331 | removing a popped node and pushing its children keeps the walk inside the subtree and leaves no child of a removed node behind |
| CushyTreeWidget.IndexOf | src/widgets/tree.rs:268-272 | `get_full` finds the first position holding the key |
| CushyTreeWidget.InsertedAfterSibling | src/widgets/tree.rs:258-304 | among its parent's children, a key inserted after a sibling comes right after that sibling, and the other children keep their order |
| CushyTreeWidget.Tree.constructor | src/widgets/tree.rs:125-133 | a new tree is empty, well formed, and its first key is 0 |
| CushyTreeWidget.Tree.ChildrenKeys | src/widgets/tree.rs:347-358 | the children of `p` are exactly the nodes whose parent is `p`, and in a well-formed tree they are the list the node shows |
| CushyTreeWidget.Tree.GenerateNextKey | src/widgets/tree.rs:155-159 | the key handed out is the counter's value, and the counter moves on by one |
| CushyTreeWidget.Tree.UpdateChildrenWidgetList | src/widgets/tree.rs:224-243 | the parent's list of children is regenerated from the map, and nothing else changes |
| CushyTreeWidget.Tree.InsertChild | src/widgets/tree.rs:174-222 | a root at depth 0, or a child one level below an existing parent, is appended under the next key and the parent's list is regenerated; with a missing parent nothing changes and no key is used; the tree stays well formed |
| CushyTreeWidget.Tree.InsertAfter | src/widgets/tree.rs:258-304 | a fresh key goes right after the sibling in the map, with the sibling's parent and depth, and the parent's list is regenerated; nothing is inserted after a root; the tree stays well formed |
| CushyTreeWidget.Tree.Clear | src/widgets/tree.rs:307-310 | the map is empty and keys start again from 0 |
| CushyTreeWidget.Tree.RemoveSubtree | src/widgets/tree.rs:322-333 | the depth-first walk removes exactly the node and every node below it, and keeps the order of the rest |
| CushyTreeWidget.Tree.RemoveNode | src/widgets/tree.rs:313-342 | the node and its descendants go and nothing else does, the rest keep their order, the parent's list is regenerated, and a missing key changes nothing; the tree stays well formed |
| CushyTree.Hierarchy | src/tree.rs:251-264 | the path of a widget ends at the widget itself, and a widget missing from the tree has an empty path |
| CushyTree.HierarchyIsPath | src/tree.rs:251-264 | the path starts at a widget without a parent, and each widget on it is the parent of the next one |
| CushyTree.HierarchyMembers | src/tree.rs:251-264 | a widget lies on the path to `d` exactly when it is `d` or one of its ancestors |
| CushyTree.HierarchyPrefix | src/tree.rs:251-264 | the path to any widget on the path to `w` is the start of the path to `w` |
| CushyTree.HierarchyPosition | src/tree.rs:88-108 | a widget sits at the same position on every path through it, with the same widgets before it |
| CushyTree.CommonPrefix | src/tree.rs:98-102 | the two paths agree up to the returned length and differ, or one of them ends, right after it |
| CushyTree.CommonPrefixAt | src/tree.rs:98-102 | any length at which the paths still agree and then stop agreeing is the common prefix |
| CushyTree.UnhoveredLeavesPath | src/tree.rs:88-108 | no widget reported as unhovered lies on the path of the newly hovered widget |
| CushyTree.NearestHolder | src/tree.rs:316-330 | the found widget is on the path and its styles hold the name; when none is found no widget on the path holds it |
| CushyTree.StyleFromNearest | src/tree.rs:310-332 | the style query answers with the component of the nearest widget on the path, self included, whose styles hold it, when it converts; otherwise the default |
| CushyTree.Subtree | src/tree.rs:243-248 | the subtree of `a` holds exactly the nodes of the tree of which `a` is an ancestor or which are `a` |
| CushyTree.RemoveAt | src/tree.rs:242 | removing one position shortens the list by one |
| CushyTree.IndexOf | src/tree.rs:236-241 | the index found holds the child and no earlier index does |
| CushyTree.RemoveAtMembers | src/tree.rs:236-242 | removing the child's position leaves exactly the other children, each once |
| CushyTree.PushedValid | src/tree.rs:19-44 | pushing a new widget under an existing parent keeps every parent ranked above its children and every parent/child link |
| CushyTree.RemovedValid | src/tree.rs:233-249 | removing a child keeps the parent (it is outside the child's subtree) and keeps every rank and parent/child link |
| CushyTree.LeafSubtree | src/tree.rs:233-249 | the subtree of a node without children is the node alone |
| CushyTree.PushThenRemove | src/tree.rs:19-49 | removing a widget right after pushing it under a parent gives back the nodes as they were |
| CushyTree.ReachedSet | src/tree.rs:57-67 | the nodes the layout walk offsets are exactly those below the widget whose path down from it runs through nodes that all have a layout |
| CushyTree.LaidOutEffect | src/tree.rs:51-67 | after `set_layout` the widget has the new rectangle, each reached node has moved by its origin, every other node is unchanged, and no parent or child link changes |
| CushyTree.ReachedDeeper | src/tree.rs:57-67 | every reached node ranks below the widget, so the walk never comes back to it |
| CushyTree.LayoutWalkStart | src/tree.rs:57 | the walk starts from the widget's children with nothing offset yet |
| CushyTree.LayoutWalkStep | src/tree.rs:58-66 | popping a child that has a layout: it is reached, not yet offset, and offsetting it and pushing its children keeps the walk's invariant |
| CushyTree.LayoutWalkSkip | src/tree.rs:58-63 | popping a child without a layout drops it and keeps the walk's invariant |
| CushyTree.LayoutWalkDone | src/tree.rs:58-67 | when nothing waits, exactly the reached nodes were offset |
| CushyTree.ShiftAllValid | src/tree.rs:64 | moving layouts changes no parent and no child, so ranks and links survive |
| CushyTree.RelayoutValid | src/tree.rs:55-56 | giving a widget a layout changes no parent and no child |
| CushyTree.RemoveWalkStart | src/tree.rs:234-243 | the removal starts with the child removed and its children detached |
| CushyTree.RemoveWalkStep | src/tree.rs:245-247 | a popped detached node is still in the tree, lies in the subtree and is not the parent; removing it and detaching its children keeps the walk's invariant |
| CushyTree.RemoveWalkDone | src/tree.rs:245-249 | when nothing stays detached, exactly the child's subtree was removed |
| CushyTree.TreeData.constructor | src/tree.rs:216-223 | a new tree has no nodes, no tracked widget and an empty render order |
| CushyTree.TreeData.PushBoxed | src/tree.rs:19-44 | the new widget is added without children, layout or styles and appended to its parent's children; the tree keeps its shape |
| CushyTree.TreeData.RemoveChild | src/tree.rs:233-249 | the child leaves its parent's children and it and its whole subtree leave the tree, nothing else changes, and the tree keeps its shape |
| CushyTree.TreeData.RemoveDetached | src/tree.rs:243-248 | the loop over detached nodes removes exactly the rest of the child's subtree |
| CushyTree.TreeData.RemoveLastDetached | src/tree.rs:245-247 | one turn removes one more node of the subtree and keeps the walk's invariant |
| CushyTree.TreeData.SetLayout | src/tree.rs:51-67 | the widget joins the render order, the nodes become the laid-out nodes, and the tree keeps its shape |
| CushyTree.TreeData.OffsetChildren | src/tree.rs:57-67 | the loop moves exactly the reached nodes by the origin |
| CushyTree.TreeData.OffsetLast | src/tree.rs:58-66 | one turn offsets at most one more reached node, keeps the walk's invariant, and makes progress |
| CushyTree.TreeData.WidgetHierarchy | src/tree.rs:251-264 | the collected and reversed list is the path from the root down to the widget |
| CushyTree.TreeData.UpdateTrackedWidget | src/tree.rs:266-283 | the new widget is always stored and the other tracked widgets stay; the answer is `Err(())` when it was already tracked, the previous widget otherwise, or nothing when none was tracked |
| CushyTree.TreeData.Hover | src/tree.rs:88-108 | the hovered widget is replaced; `hovered` is the new path and `unhovered` the old path without its common prefix with it, none of which is on the new path |
| CushyTree.TreeData.IsHovered | src/tree.rs:142-153 | the answer is true exactly when the widget is the hovered one or one of its ancestors |
| CushyTree.TreeData.QueryStyle | src/tree.rs:310-332 | the answer is the style read from the widget upwards, as StyleFromNearest characterises it |
| CushyTree.PushThenRemoveChild | src/tree.rs:19-49 | pushing a widget and then removing it leaves the tree's nodes as they were |
| CushyContext.Resolved | src/context.rs:203 | a pending widget is kept exactly when it is still mounted, and is then unchanged |
| CushyContext.PendingWidgetState.constructor | src/context.rs:1003-1014 | the pending active and focused widgets start as the tree's, when still mounted; nothing advancing, unmounting or queued |
| CushyContext.PendingWidgetState.Activate | src/context.rs:1193-1200 | the widget becomes the pending active one; the answer is true exactly when it was not already |
| CushyContext.PendingWidgetState.Deactivate | src/context.rs:1209-1227 | the pending active widget is cleared, and true returned, exactly when it was this widget; otherwise nothing changes |
| CushyContext.PendingWidgetState.Focus | src/context.rs:1154-1157 | the widget becomes the pending focus and the focus is marked as advancing |
| CushyContext.PendingWidgetState.Blur | src/context.rs:1169-1176 | the focus is cleared, and true returned, exactly when this widget holds it in a focused window; otherwise nothing changes |
| CushyContext.ActivateTwiceThenDeactivate | src/context.rs:1193-1215 | a second activation reports no change, and deactivating afterwards clears the pending active widget |
| CushyContext.FocusThenBlur | src/context.rs:1154-1176 | blurring a widget that just took the focus clears it; blurring again reports no change |
| CushyContext.PendingWidgetState.ApplyPendingActivation | src/context.rs:200-237 | at most 100 changes; below that bound the tree's active widget is the pending one (when mounted); no change when they already agree; exactly one change when handlers leave the pending widget alone |
| CushyContext.PendingWidgetState.ApplyPendingFocus | src/context.rs:239-294 | at most 100 changes; below that bound the tree's focus is the pending one (when mounted); no change when they already agree; a focused widget that refuses every blur keeps the focus |
| CushyContext.PendingWidgetState.RemoveChild | src/context.rs:929-950 | inside an unmount the child is only queued and nothing leaves the tree; otherwise the queue is drained, unmounting ends, the child is no longer mounted and no widget was mounted |
| CushyContext.InvalidationStatus.constructor | src/context.rs:1590-1596 | no refresh or sync pending and nothing invalidated |
| CushyContext.InvalidationStatus.ShouldSendRefresh | src/context.rs:1598-1602 | true exactly when no refresh was pending; a refresh is pending afterwards |
| CushyContext.InvalidationStatus.ShouldSendSync | src/context.rs:1604-1608 | true exactly when no sync was pending; a sync is pending afterwards |
| CushyContext.InvalidationStatus.RefreshReceived | src/context.rs:1610-1612 | no refresh is pending afterwards |
| CushyContext.InvalidationStatus.SyncReceived | src/context.rs:1614-1616 | no sync is pending afterwards |
| CushyContext.InvalidationStatus.Invalidate | src/context.rs:1618-1621 | the widget joins the invalidated set; true exactly when it was not in it |
| CushyContext.RefreshOncePerReceipt | src/context.rs:1598-1612 | a refresh is sent once, not again until received, and again after that |
| CushyContext.InvalidateTwice | src/context.rs:1618-1621 | invalidating twice reports the widget as new at most the first time |
| CushyGraphics.IntoUnsigned | src/graphics.rs:97 | the converted rect is unsigned, and an unsigned rect converts to itself |
| CushyGraphics.Intersection | src/graphics.rs:95-99 | the overlap, when there is one, has an area and holds exactly the points both rects hold |
| CushyGraphics.EffectiveRegion | src/graphics.rs:85-93 | the adjusted region starts at a non-negative origin and, once unsigned, keeps exactly the region's non-negative points |
| CushyGraphics.NewClip | src/graphics.rs:80-100 | the clip handed to the renderer is unsigned, no larger than the current clip, and (placed back at the current clip's origin) holds exactly the current clip's non-negative points that the new region covers |
| CushyGraphics.ClippedTo | src/graphics.rs:73-106 | the new region is the clip placed at the current region's origin; the new clip is unsigned, never larger, and holds exactly the points of the old clip inside the new region |
| CushyGraphics.ClippedTranslation | src/graphics.rs:55-58 | after clipping to a visible region the translation is never positive, and zero on an axis exactly when the region starts inside the current clip on that axis |
| CushyGraphics.VisibleRectAsWrittenTooWide | src/graphics.rs:131-133 | for a region starting left of the window, the visible rect as written holds a point outside the region |
| CushyGraphics.VisibleRect | src/graphics.rs:126-133 | the visible rect holds exactly the non-negative points of both the region and the clip |
| CushyGraphics.FindAvailableFontFamily | src/graphics.rs:572-579 | none exactly when no family of the list is available; otherwise a family of the list that is available with none before it available |
| CushyGraphics.ApplyFontFamilyList | src/graphics.rs:581-592 | a name is applied only when the list offers it and the database has it, or when nothing in the list is available and the fallback is that name; a named family found in the list is always applied |
| CushyGraphics.FontDatabase.RemoveFace | src/graphics.rs:524-526 | the face leaves the database and nothing else changes |
| CushyGraphics.GatherAvailableFamilyNames | src/graphics.rs:453-473 | the names kept are exactly the database's first family names plus earlier entries already tagged with this generation, all tagged with it |
| CushyGraphics.Synced | src/graphics.rs:535-564 | the fonts listed end up loaded and tagged with the generation; fonts not listed are unchanged; faces of loaded fonts are kept; a new font gets the faces loaded for it |
| CushyGraphics.SyncedChangedFacts | src/graphics.rs:491-511 | after synchronizing the changed collections, exactly their listed fonts carry the new generation and every other font is as it was |
| CushyGraphics.StaleRemovedFacts | src/graphics.rs:512-527 | after the stale pass, a font of a changed collection is loaded exactly when that collection lists it; fonts of other collections stay as they were |
| CushyGraphics.FontState.constructor | src/graphics.rs:430-451 | generation 1, no current family; the window's fonts are loaded and nothing else, because the app collection's generation is taken as already seen; family names match the database |
| CushyGraphics.FontState.SynchronizeFontList | src/graphics.rs:535-564 | the loaded fonts become the synchronized map; the database only gains faces, including every face of each newly loaded font |
| CushyGraphics.FontState.RemoveFaces | src/graphics.rs:524-526 | exactly the given faces leave the database; the rest keep their families |
| CushyGraphics.FontState.RemoveStaleFonts | src/graphics.rs:512-527 | a font stays exactly when its collection did not change or it carries the current generation; a dropped font's faces are gone from the database |
| CushyGraphics.FontState.UpdateFonts | src/graphics.rs:475-533 | true exactly when a collection generation changed, and the font generation steps exactly then; with no change nothing moves; after a change the changed collections' loaded fonts are exactly the ones they list, other fonts are untouched, dropped fonts' faces are gone and the family names are the database's, tagged with the new generation |
| CushyGraphics.FontState.NextFrame | src/graphics.rs:567-570 | the current family is cleared, and the answer and generation step are those of the update |
| CushyGraphics.UpdateTwice | src/graphics.rs:475-494 | a second update with the same collection generations reports no change |
| CushyReconcile.FindFrom | src/widgets/stack.rs:66-72 | the found position is at or after the start and holds the entry; with none found, no position from the start on holds it |
| CushyReconcile.ActionAt | src/widgets/stack.rs:59-75 | an entry is kept exactly when the live list already holds it at that position; a swap partner lies after the position and holds the entry; an insertion happens only when no later position holds it |
| CushyReconcile.Apply | src/widgets/stack.rs:73-104 | positions before the current one are untouched; an insertion puts the new entry at the position and shifts the rest; a swap exchanges the two positions |
| CushyReconcile.ApplyKeeps | src/widgets/stack.rs:66-104 | no live entry is lost by a keep, a swap or an insertion |
| CushyReconcile.Run | src/widgets/stack.rs:58-110 | after `n` turns the first `n` live entries are the first `n` targets, and the list grew by exactly the entries inserted |
| CushyReconcile.RunAlongMade | src/widgets/grid.rs:98-120 | a list kept beside the live one (mounted rows, layout children) stays paired entry by entry with what each live entry mounts |
| CushyReconcile.ApplyPaired | src/widgets/grid.rs:111-117 | one swap or insertion applied to two paired lists keeps them paired |
| CushyReconcile.Synchronize | crates/gooey-widgets/src/flex/raster.rs:37-57 | the loop's live list and insertions are exactly `Run` over the whole target, and the paired list is `RunAlong` |
| CushyReconcile.Reconciled | src/widgets/stack.rs:112-117 | once the tail is drained the live list is exactly the target, and live plus inserted equals target plus removed in length |
| CushyReconcile.ReconciledOnItself | src/widgets/stack.rs:58-117 | reconciling a list with itself inserts nothing and removes nothing |
| CushyReconcile.RunOnItselfKeeps | src/widgets/stack.rs:58-110 | every turn of the loop over an unchanged list keeps the entry in place |
| CushyReconcile.RunKeeps | src/widgets/stack.rs:58-110 | every originally live entry is still in the list after any number of turns |
| CushyReconcile.ReconciledKeeps | src/widgets/stack.rs:58-117 | every originally live entry ends up in the target or in the removed tail |
| CushyReconcile.InsertedIsAbsent | src/widgets/stack.rs:75-104 | with a target without repeats, an inserted entry was absent from the list at that point |
| CushyReconcile.InsertedWereNotLive | src/widgets/stack.rs:66-104 | with a target without repeats, nothing live is inserted again: entries found later are swapped into place |
| CushyReconcile.SyncedDistinct | src/widgets/stack.rs:58-110 | with neither list repeating an entry, the live list never repeats one |
| CushyReconcile.RemovedAreStale | src/widgets/stack.rs:112-117 | with neither list repeating an entry, only entries missing from the target are removed |
| CushyGridUpdate.SplitMakeRoundTrip | src/widgets/grid.rs:220-246 | `split_size` and `make_size` are inverse for both orientations, and `make_point` puts its two lengths on the same axes as `make_size` |
| CushyGridLayout.Inserted | src/widgets/grid.rs:360-389 | the new child, with the next id and its dimension, sits at the index with the other children in order around it |
| CushyGridLayout.Removed | src/widgets/grid.rs:322-347 | the child at the index is gone and the other children keep their order |
| CushyGridLayout.InsertedConsistent | src/widgets/grid.rs:360-389 | inserting keeps ids fresh and distinct, each child listed exactly once by its dimension, and the weight and allocated-space totals equal to the sums over the children |
| CushyGridLayout.RemovedConsistent | src/widgets/grid.rs:322-347 | removing keeps the same invariant: listed once, only live ids listed, totals equal to the sums |
| CushyGridLayout.Swapped | src/widgets/grid.rs:356-358 | the two children trade places and every other child stays |
| CushyGridLayout.SwappedConsistent | src/widgets/grid.rs:356-358 | swapping keeps the invariant |
| CushyGridLayout.InsertRemoveRoundTrip | src/widgets/grid.rs:322-389 | removing what was just inserted restores the bookkeeping, with only the next id used up |
| CushyGridLayout.Truncated | src/widgets/grid.rs:350-354 | the children are cut to the first `n` |
| CushyGridLayout.RemoveFromEnd | src/widgets/grid.rs:350-354 | removing the last child until at most `n` are left keeps the invariant, gives `Truncated` and cuts the layouts alike |
| CushyGridLayout.Resized | src/widgets/grid.rs:312-315 | `resize` cuts to the count or grows with zeros |
| CushyGridLayout.RemeasuredAll | src/widgets/grid.rs:561-567 | each layout is remeasured with its own child |
| CushyGridLayout.RemeasuredAgree | src/widgets/grid.rs:557-569 | after remeasuring every measured child has its size at the scale, and other children's layouts are untouched |
| CushyGridLayout.InsertKeepsMeasured | src/widgets/grid.rs:378-388 | inserting a child with its starting length keeps every measured child's length with it |
| CushyGridLayout.SwapKeepsMeasured | src/widgets/grid.rs:356-358 | swapping the layouts together with the children keeps every measured length with its child |
| CushyGridLayout.SwapAsWrittenMisplacesLength | src/widgets/grid.rs:356-358 | as written, a measured 10px child swapped with a fit-content child leaves the 10px length at the fit-content child's position |
| CushyGridLayout.Measurements | src/widgets/grid.rs:399-547 | the measuring passes give one length per child and one other length per element, the total is the saturating sum of the others, measured children keep their lengths, and a single element that must fill gets at least that space |
| CushyGridLayout.UpdateKeepsMeasured | src/widgets/grid.rs:428-531 | no measuring pass changes the length of a measured child |
| CushyGridLayout.Remeasuring | src/widgets/grid.rs:561-567 | the loop gives exactly `RemeasuredAll` |
| CushyGridLayout.Placing | src/widgets/grid.rs:596-621 | the loop places the layouts exactly as `Offsets` says and ends where the last visible one ends |
| CushyGridLayout.PlacedApart | src/widgets/grid.rs:596-621 | placed children do not overlap, two visible ones have a gutter between them, and all end by the measured length |
| CushyGridLayout.MeasuredKept | src/widgets/grid.rs:596-621 | placing keeps every measured child's length |
| CushyGridLayout.Settling | src/widgets/grid.rs:399-555 | the measuring passes and placing together give a `Settled` layout with one layout per child and one other per element |
| CushyGridLayout.SettledApart | src/widgets/grid.rs:549-554 | settled children do not overlap and all end by the reported measured length |
| CushyGridLayout.SettledKeepsMeasured | src/widgets/grid.rs:399-623 | settling keeps every measured child's length |
| CushyGridLayout.SettledFills | src/widgets/grid.rs:534-554 | a single element in a space it must fill reports at least that space as its other length |
| CushyGridLayout.GridLayout.constructor | src/widgets/grid.rs:296-310 | no children, empty lists and totals, one element with a zero other, scale one |
| CushyGridLayout.GridLayout.SetElementCount | src/widgets/grid.rs:312-315 | the others are resized to the count and the element count set, nothing else changes |
| CushyGridLayout.GridLayout.Remove | src/widgets/grid.rs:322-347 | the bookkeeping becomes `Removed`, the layout at the index is dropped, and the removed dimension is returned |
| CushyGridLayout.GridLayout.Truncate | src/widgets/grid.rs:350-354 | the bookkeeping becomes `Truncated` and the layouts are cut alike |
| CushyGridLayout.GridLayout.SwapAsWritten | src/widgets/grid.rs:356-358 | as written, the children trade places and the layouts do not |
| CushyGridLayout.GridLayout.Swap | src/widgets/grid.rs:356-358 | corrected swap: children and layouts trade places together, so measured lengths stay with their children |
| CushyGridLayout.GridLayout.Insert | src/widgets/grid.rs:360-389 | the bookkeeping becomes `Inserted`, a layout with the starting length goes in at the index, and measured lengths stay with their children |
| CushyGridLayout.GridLayout.UpdateMeasured | src/widgets/grid.rs:557-569 | at a new scale every layout is remeasured and the measured children agree with it; at the same scale nothing changes |
| CushyGridLayout.GridLayout.UpdateOffsets | src/widgets/grid.rs:577-623 | the layouts are placed as `Positioned` says, without overlap, all ending by the measured length returned |
| CushyGridLayout.GridLayout.Settle | src/widgets/grid.rs:400-555 | the new layouts, others and size are `Settled` from the current layouts, with the bookkeeping unchanged |
| CushyGridLayout.GridLayout.Update | src/widgets/grid.rs:392-555 | the layout is remeasured at a new scale and then `Settled`, and measured lengths stay with their children |
| CushyGridUpdate.FitElementsMax | src/widgets/grid.rs:431-457 | a child that fits its content gets the largest length any of its elements measures, which is zero or one of them |
| CushyGridUpdate.FitElementsOthers | src/widgets/grid.rs:435-456 | each element's other length is raised to what the child measures there, only when the measured length is not zero |
| CushyGridUpdate.OtherElementsAt | src/widgets/grid.rs:472-485 | each element's other length is raised to what a measured or fractional child measures there |
| CushyGridUpdate.FitPhaseSpends | src/widgets/grid.rs:428-466 | after the fit-content loop, the remaining space is the start less every measured length and a gutter between each two visible children, saturating |
| CushyGridUpdate.FitPhaseSizes | src/widgets/grid.rs:428-466 | after that loop every fit-content child holds the length measured for it |
| CushyGridUpdate.OthersPhaseCovers | src/widgets/grid.rs:469-486 | after the measured-children loop (and the fractional one) every element's other length is at least what it was and at least what each child measures there |
| CushyGridUpdate.SpreadConserves | src/widgets/grid.rs:493-511 | the fractional lengths plus the pixels left over equal the share per weight times the weights plus the leftover |
| CushyGridUpdate.SpreadUsesAll | src/widgets/grid.rs:500-508 | every leftover pixel is handed out: the last child takes what is still left |
| CushyGridUpdate.SpreadBounds | src/widgets/grid.rs:497-510 | each fractional child gets at least its share by weight and at most that plus the leftover |
| CushyGridUpdate.FractionalSizesFill | src/widgets/grid.rs:489-511 | the fractional lengths add up to exactly the space they share |
| CushyGridUpdate.FractionalSizesWrapping | src/widgets/grid.rs:765-828 | weights 2, 1, 1 in 10, 11, 12 and 13 pixels give [4,3,3], [5,3,3], [6,3,3] and [6,3,4], as the layout's tests expect |
| CushyGridUpdate.FractionalSizesBesideFixed | src/widgets/grid.rs:831-845 | two weights of 1 in the 8 pixels a fixed 7 leaves of 15 give [4,4], as the test expects |
| CushyGridUpdate.TotalOtherIsCappedSum | src/widgets/grid.rs:571-575 | the saturating total of the others is their sum capped at `u32::MAX` |
| CushyGridUpdate.FillOthersAsWritten | src/widgets/grid.rs:534-547 | as written, the split fails (a division by zero) exactly when filling, with room to fill and no others |
| CushyGridUpdate.FillOthers | src/widgets/grid.rs:534-547 | the total is the new others' total, and a fill with others is met; when not filling or already full everything is kept |
| CushyGridUpdate.FillSplitFills | src/widgets/grid.rs:536-545 | the others add up to exactly the fill, each after the first gets the share, and the first's extra is less than the count |
| CushyGridUpdate.FillOthersAgrees | src/widgets/grid.rs:534-547 | wherever the written split does not divide by zero it agrees with the corrected one |
| CushyGridUpdate.FillOthersDividesByZero | src/widgets/grid.rs:538-539 | no others and a fill of 1: the written split divides by zero, the corrected one keeps nothing and reports 0 |
| CushyGridUpdate.OffsetsSnoc | src/widgets/grid.rs:596-606 | a visible child after a non-zero offset starts a gutter later; an invisible one is placed at the offset and takes nothing |
| CushyGridUpdate.OffsetsEnd | src/widgets/grid.rs:596-622 | the placing ends at exactly the space the measuring loop set aside for the children |
| CushyGridUpdate.OffsetsOrdered | src/widgets/grid.rs:596-621 | each child ends before the next starts, two visible children are a gutter apart, and all end by the reported length |
| CushyGridUpdate.OffsetsWithoutGutter | src/widgets/grid.rs:716-726 | without a gutter each offset is the sum of the lengths before it, as the layout's tests check |
| CushyGridUpdate.StartingSpace | src/widgets/grid.rs:400-409 | the remaining space is at most the available space, and covers it together with the allocated lengths and known gutters |
| CushyGridUpdate.Shares | src/widgets/grid.rs:493-511 | the fractional lengths add up to exactly the space shared |
| CushyGridUpdate.UpdateLengths | src/widgets/grid.rs:400-547 | one length per child, one other per element, the total is the others' saturating sum, and a single filled element gets at least the fill |
| CushyGridUpdate.UpdateKeepsUnlisted | src/widgets/grid.rs:428-531 | a child that neither fits its content nor is fractional keeps its length through the passes |
| CushyGrid.DimensionsOf | src/widgets/grid.rs:77-83 | the layout's dimensions in child order |
| CushyGrid.Respec | src/widgets/grid.rs:77-83 | after truncating to nothing and inserting each spec in turn, the layout's dimensions are exactly the specs, and the element count and others are kept |
| CushyGrid.Grid.constructor | src/widgets/grid.rs:32-41 | every column fits its content as a constant, no live rows, no generations, an empty layout with one element |
| CushyGrid.Grid.SetDimensions | src/widgets/grid.rs:65-68 | the column specs become the new value; rows, live rows and generations are kept |
| CushyGrid.Grid.SynchronizeSpecs | src/widgets/grid.rs:70-85 | when the spec count differs, the specs are constant or their generation changed, the layout's dimensions become the specs; otherwise the layout is untouched |
| CushyGrid.Grid.SynchronizeRows | src/widgets/grid.rs:89-130 | when the rows are stale, the live rows become the rows, the removed rows are the drained tail, the element count is the row count and the generation is recorded; otherwise nothing changes |
| CushyGrid.Grid.SynchronizeChildren | src/widgets/grid.rs:87-131 | corrected: when the specs were stale or already matched, the layout's dimensions equal the column specs afterwards whatever rows move, and the rows are synchronized as `SynchronizeRows` says |
| CushyGrid.SpecsAfterRowSwaps | src/widgets/grid.rs:98-120 | as written, every row swap also swaps the layout's children at the row positions, failing when a position is past the columns |
| CushyGrid.RowSwapAsWrittenPanics | src/widgets/grid.rs:111-112 | two rows trading places in a one-column grid make the layout swap a column that does not exist |
| CushyGrid.RowSwapAsWrittenSwapsColumns | src/widgets/grid.rs:111-112 | two rows trading places in a two-column grid swap the two column specs, although the columns did not change |
| CushyStack.Mounting | src/widgets/stack.rs:76-107 | an `Expand` with a weight on the stack's axis mounts its child as fractional, a `Resize` with a minimum on that axis mounts its child as measured, and anything else mounts itself and fits its content |
| CushyStack.MountedIds | src/widgets/stack.rs:104 | the synced list as the source keeps it: what each child mounts |
| CushyStack.ResyncAsWrittenRemounts | src/widgets/stack.rs:59-63 | as written, an `Expand` around child 7 is kept as 7, so the next pass inserts the `Expand` again and removes 7 |
| CushyStack.SyncLayout | src/widgets/stack.rs:58-110 | after the loop the synced widgets and insertions are `Run` over the children and the layout's children carry each synced widget's dimension |
| CushyStack.SyncStep | src/widgets/stack.rs:59-109 | one turn advances `Run` by one position and keeps the layout paired with the synced widgets |
| CushyStack.SwappedPaired | src/widgets/stack.rs:73-74 | swapping the layout children together with the synced widgets keeps them paired |
| CushyStack.InsertedPaired | src/widgets/stack.rs:103-107 | inserting a widget and its dimension at the same index keeps them paired |
| CushyStack.TruncatedPaired | src/widgets/stack.rs:114-117 | truncating both to the same length keeps them paired |
| CushyStack.Resync | src/widgets/stack.rs:58-117 | the synced widgets and the removed ones are `Reconciled`, and the layout stays paired with the synced widgets |
| CushyStack.Shown | src/widgets/stack.rs:124-130 | exactly the children whose layout has a size are drawn and laid out |
| CushyStack.ChildRect | src/widgets/stack.rs:152-167 | the child is placed at its offset along the stack, as long as its size and as wide as the stack's other length |
| CushyStack.Stack.constructor | src/widgets/stack.rs:29-37 | the given children and generation, no synced children, an empty layout |
| CushyStack.Stack.SynchronizeChildren | src/widgets/stack.rs:49-119 | corrected: when stale the synced children become exactly the children, the removed ones are the drained tail and the layout follows; otherwise nothing changes |
| CushyStack.Stack.Follow | src/widgets/stack.rs:56-118 | the synced children become the children, with the removed and inserted ones, and the layout stays paired |
| CushyStack.ResyncKeepsAll | src/widgets/stack.rs:58-117 | with the corrected comparison, synchronizing unchanged children inserts and removes nothing |
| GooeyFlexRaster.ChildOrigin | crates/gooey-widgets/src/flex/raster.rs:177-183 | a child's rectangle starts at its offset along the flex and at zero across it |
| GooeyFlexRaster.ChildExtent | crates/gooey-widgets/src/flex/raster.rs:179-181 | the rectangle is as long as the placement and as wide as the flex |
| GooeyFlexRaster.Relative | crates/gooey-widgets/src/flex/raster.rs:184 | the relative location plus the rectangle's origin is the location |
| GooeyFlexRaster.InsideHalfOpen | crates/gooey-widgets/src/flex/raster.rs:185-188 | a rectangle holds exactly the locations from its origin up to, but not including, its origin plus its extent |
| GooeyFlexRaster.FirstHit | crates/gooey-widgets/src/flex/raster.rs:176-194 | the hit child holds the location and no earlier child does; with none, no child holds it |
| GooeyFlexRaster.CursorHovered | crates/gooey-widgets/src/flex/raster.rs:197-219 | afterwards a child is hovered exactly when it is under the pointer, and other ids keep their hovering |
| GooeyFlexRaster.CursorSent | crates/gooey-widgets/src/flex/raster.rs:207-217 | every event goes to a child, and a child is sent `None` exactly when it was hovered and is no longer under the pointer |
| GooeyFlexRaster.SyncFlex | crates/gooey-widgets/src/flex/raster.rs:36-62 | after reconciling, the children are exactly the entries and there is one fit-content dimension per entry |
| GooeyFlexRaster.Hover | crates/gooey-widgets/src/flex/raster.rs:198-218 | the loop sends and hovers exactly as `Cursor` says |
| GooeyFlexRaster.FlexRasterizer.constructor | crates/gooey-widgets/src/flex/raster.rs:76-128 | one child and one fit-content dimension per entry, a source generation only for a dynamic list, nothing tracked or hovered |
| GooeyFlexRaster.FlexRasterizer.SynchronizeChildren | crates/gooey-widgets/src/flex/raster.rs:32-65 | a dynamic source with a new generation makes the children the entries with one fit-content dimension each; otherwise nothing changes |
| GooeyFlexRaster.FlexRasterizer.MouseDown | crates/gooey-widgets/src/flex/raster.rs:175-195 | the first child under the location gets the press at the relative location and becomes tracked; with none, nothing changes |
| GooeyFlexRaster.FlexRasterizer.CursorMoved | crates/gooey-widgets/src/flex/raster.rs:197-219 | the events sent and the new hovered set are `Cursor` over the children |
| GooeyFlexRaster.FlexRasterizer.MouseUp | crates/gooey-widgets/src/flex/raster.rs:221-248 | the tracked child, when placed, gets the release at the relative location if inside and `None` otherwise; tracking always ends |
| GooeyFlexRaster.IndexOf | crates/gooey-widgets/src/flex/raster.rs:222-226 | the first position holding the id |
| CushyVirtualList.Span | src/widgets/virtual_list.rs:292-294 | the rows from the start up to, but not including, the end, in order |
| CushyVirtualList.ClampScroll | src/widgets/virtual_list.rs:275-277 | each scroll is at most what it was and at most the content past the control, saturating at zero, and is one of the two |
| CushyVirtualList.StartRow | src/widgets/virtual_list.rs:279 | the first row is the one whose span holds the scroll position |
| CushyVirtualList.PastRow | src/widgets/virtual_list.rs:280-282 | the first row starting at or after the bottom of the control |
| CushyVirtualList.EndRow | src/widgets/virtual_list.rs:280-283 | the last row kept is that row or the last row of the list, whichever comes first |
| CushyVirtualList.ShownRowsMounted | src/widgets/virtual_list.rs:279-283 | every row that shows in the control is kept mounted |
| CushyVirtualList.VisibleRangeAsWritten | src/widgets/virtual_list.rs:285 | as written, the visible range is from the first row to the last kept row, excluding it |
| CushyVirtualList.VisibleRangeAsWrittenMissesLastRow | src/widgets/virtual_list.rs:283-285 | three 10px rows in a 30px control: row 2 shows but is outside the written range |
| CushyVirtualList.VisibleRange | src/widgets/virtual_list.rs:285 | corrected: the range holds exactly the rows that show |
| CushyVirtualList.RowTop | src/widgets/virtual_list.rs:321-332 | the row at position `p` of the deque is placed at its top in the content minus the scroll |
| CushyVirtualList.Upkeep | src/widgets/virtual_list.rs:287-319 | the deque becomes exactly the rows start to end; a disjoint deque is all removed and rebuilt, otherwise exactly the rows outside the window are removed and exactly the missing ones made |
| CushyVirtualList.PopBefore | src/widgets/virtual_list.rs:298-304 | the rows before the start are popped from the front |
| CushyVirtualList.PopAfter | src/widgets/virtual_list.rs:305-311 | the rows after the end are popped from the back |
| CushyVirtualList.PushBefore | src/widgets/virtual_list.rs:313-315 | the rows from the start up to the old first row are pushed at the front |
| CushyVirtualList.PushAfter | src/widgets/virtual_list.rs:316-318 | the rows after the old last row up to the end are pushed at the back |
| CushyVirtualList.UpkeepAccounts | src/widgets/virtual_list.rs:287-319 | no row leaves the deque without being removed and none joins it without being made |
| CushyVirtualList.VirtualList.constructor | src/widgets/virtual_list.rs:129-145 | a list with no rows mounted and an empty visible range |
| CushyVirtualList.VirtualList.Layout | src/widgets/virtual_list.rs:406-417 | with no items the minimum size is reported and nothing changes; otherwise the rows are laid out as `LayoutRows` says and the control size reported |
| CushyVirtualList.VirtualList.LayoutRows | src/widgets/virtual_list.rs:247-340 | the deque is the rows from the first shown to the last kept at the clamped scroll, the visible range is the rows that show, and every row gained or lost is made or removed |

## Left out

- src/value.rs: deadlock detection (`DeadlockError`, the lock-owner tracking in `DynamicData::state`), the mutex and condition variable, and the blocking and async waits are not modelled; the model is sequential, and `block_until_updated` is one pass of its loop.
- src/value.rs: `for_each`, `with_for_each`, `map_each_unique`, `map_each_into`, `map_each_to`, `try_update`, `into_reader`, `with_clone`, `get_tracked`, `transition_to`, the `Value<T>` enum and the `IntoValue`/`IntoDynamic` conversions are not modelled. They are wrappers of the modelled operations, or they belong to the widget and animation layers.
- src/value.rs: callbacks are counted, and the values they were handed are logged; what a callback does is not modelled.
- src/dynamic.rs: `for_each`, `with_clone`, `redraw_if_changed`, `Clone for DynamicRefReader` and the `From` conversion are not modelled.
- crates/gooey-reactor/src/lib.rs: the global registry of reactors, `new_default_dynamic`, `map_mut`, `into_stream` (with stream.rs), the async `wait_next` and the condition variable of `Waiters` are not modelled. Values are integers, and `LotId`s are never reused.
- src/reactive.rs: the background executor thread (`CallbackExecutor`, `WatchedChannels`, `PollChannelFuture`), `defer_execute_callbacks`, the `IntoOption`/`for_each_unwrapped` helpers and the `Debug` impls are not modelled. A callback's disconnect answer and a future's readiness are parameters.
- src/reactive/channel.rs: blocking `send`, the condition variable and the background task queue are not modelled; enqueued tasks are logged. The eight constructors (`bounded`, `unbounded`, and their `_try` and `_async` forms) differ only in the callback they register and are one constructor.
- src/widgets/input.rs: layout, rendering, hit testing (`locate_cursor`, `cursor_from_point`), the clipboard, masking, IME and focus handling are not modelled. Hit-tested cursors are parameters.
- src/widgets/input.rs: graphemes and Unicode word segmentation are modelled as one character each and as maximal runs of word characters.
- CushyInput.Input.ArrowKey: states the selection change; where the cursor goes is `MoveCursor`'s contract. ArrowUp and ArrowDown, which only change the selection in the source, are not modelled.
- text/src/lib.rs: rendering (`render_at`, `render_baseline_at`, `wrap`, `prepare`) and `for_each_in_range` (a read-only walk) are not modelled. `offset + 1` overflowing `usize` in `insert_str` is not modelled.
- text/src/lib.rs: `Text::for_each_in_range_mut` and `insert_str` edit the spans in place through `&mut`; the model's loops (`EditSpansInRange`, `InsertIntoFirstSpan`) build the new span list as a value, which the `Text` methods then assign, so aliasing of spans is not modelled.
- text/src/rich.rs: the async lock around the data is not modelled; methods run one at a time. `prepare` and the read-only `for_each_in_range` are not modelled.
- widgets/src/input/rasterizer.rs: mouse handling (`position_for_location`, `character_rect_for_position`), rendering and `prepared_text` work on float pixel geometry and the renderer, and are not modelled.
- widgets/src/input/rasterizer.rs: the clipboard (`copy`, `paste`, the V/X/C keys) and `selected_string` are not modelled; the clipboard is operating-system I/O.
- widgets/src/input/rasterizer.rs: `RichText::character_offset_of` is not part of this model's source; `CharacterOffset` takes it as the offset into `to_string`'s result.
- GooeyInputRaster.InputState.ReplaceSelection: a panic of the source is an `ok == false` result with the state unchanged.
- GooeyInputRaster.BlinkState.Update: one clock reading per call (the source reads the clock again inside `next_blink`); `Instant` overflow in `checked_add` is not modelled.
- text/src/wrap/tokenizer.rs: text measurement is the renderer's; a measured metric is represented by the style it was measured in, and `caret` (never read) is not modelled.
- GooeyTokenizer.Tokenizer.TokenizeSpan: models the corrected line-feed handling; the loop as written is `LexAsWritten`.
- src/lib.rs: UPx addition and subtraction are taken to saturate at `u32::MAX` and at zero; the figures crate that defines them is not part of this model.
- src/styles.rs: `resolve_component`'s dynamic lookup and type check are the `resolve` parameter; colours, `ColorSource` and the theme's colours are floating point and are not modelled beyond a packed RGBA value.
- src/styles.rs: converting a dimension to pixels at the current scale is the `toUpx` parameter everywhere; the `i32` overflow of `px + 1` and `px - 1` in `minimum` and `maximum` is not modelled.
- src/widgets/resize.rs, src/widgets/expand.rs: `root_behavior` (a constant answer) and the `WrappedLayout` alignment of the reported size are not modelled.
- src/widgets/scroll.rs: the scrollbar geometry (`scrollbar_region`), wheel amounts in lines, drag proportions and the bar's fade animations are floating point or rendering; they enter as parameters or are not modelled.
- src/widgets/container.rs: where the padding comes from (the `IntrinsicPadding` style lookup) is a parameter, and the shadow and corner radii are rendering.
- src/widgets/spacing.rs: the lazily mounted child and the margin lookup from styles are not modelled; the child's measurement is a parameter.
- src/widgets/wrap.rs: the first row's baseline, which the layout also reports, is not modelled.
- CushyWrap.Layout: positions are unbounded naturals, so the `u32` saturation of `y` and `additional_x` is not modelled.
- GooeyList.ItemLabelMeaning: Roman numerals come from an outside crate, which is not part of this model; they are the parameter `roman`, and the panic of its `unwrap` for numbers it cannot write is not modelled.
- widgets/src/list.rs: the list's frontends, its style components and the registration of widgets in storage are not modelled; a registration is its widget id.
- crates/gooey-core/src/window.rs: the widget initialiser of a new window and the reactive `Dynamic` cells of an open window are not modelled; the window's values are plain fields.
- src/dialog.rs: the file picker, the dialog's title and description widgets, and showing the dialog are not modelled; a callback is an identifier, and running it is choosing the button.
- src/dialog/native.rs: moving work to the window and event-loop threads, the file dialogs and the native library itself are not modelled; a native answer is a parameter.
- CushyNativeDialog.CustomCaptionsDispatch: says nothing about what the native library answers; it assumes the answer is one of the captions shown.
- frontends/browser/src/utils.rs: the DOM helpers (`window_document`, `set_widget_id`, `set_widget_classes`, `initialize_widget_element`), `CssManager` and `CssRule` call into the browser's style sheet and are left out; only the id and CSS block text is modelled.
- src/widgets/shortcuts.rs: the child widget, the callbacks' own effects and their `EventHandling` results are not modelled (callbacks are identifiers and the results are ignored by the source); case mapping covers ASCII letters only, not Unicode `to_lowercase`/`to_uppercase`; the `From` conversions into `ShortcutKey` are the datatype's constructors.
- src/animation.rs: the animation thread's locking, condition variable and 16 ms sleep, and the global `thread_state`, are not modelled; `Animating.Tick` is one pass of its loop, with the clock and each boxed animation's outcome as parameters. Easing functions other than `Linear`, `ZeroToOne` and `f32`/`f64` rounding are left out: interpolation is exact on integers with halves rounded up. Chains of chains are not modelled; a chain runs two plain animations. `LotId` generations are modelled as ids that are never reused.
- widgets/src/layout.rs: widget registration and storage (`Builder::with`, `Layout::insert` register the widget first) are not modelled; a registration is its widget id. Lengths are `real`, not `f32`. The rasterizer and browser transmogrifiers are not part of this model.
- crates/gooey-core/src/style/classes.rs: the shared `Arc` storage and its copy-on-write (`make_mut`) are modelled as one owned list, so aliasing between clones is not captured; the by-value iterator over an unshared list yields all names and the by-reference `iter` is the sequence itself; `Index` panics out of range (use `Get`); `NameKey` borrowing and `with_capacity` reservations have no counterpart; equality of lists (`ordered` only) is sequence equality of the names.
- core/src/styles/style_sheet.rs: `stylecs::Style` is not part of this model; a style is its optional class set and its other components by kind, with values as integers, and `merge_with` is modelled as the tests describe it (own components preferred, `Classes` united and never inherited). Widget `TypeId`s are numbers. The `Rule` builder functions (`for_widget`, `for_classes`, `with_classes`, `when_*`, `with_styles`), `Classes::single`, `to_vec`, `Deref` and the `From` conversions are record updates and are left out; the commented-out `rule_applies_tests` are not modelled. `sort_unstable` and `dedup` are modelled by their result, a strictly increasing sequence of the same values.
- crates/gooey-core/src/style.rs: `Matches` yields pattern ids (positions, since the library never removes a pattern) rather than references to the patterns; `WidgetStyle`, the unused constants map, `Dimension`/`Length`/`FontSize` and their `From` conversions, `DynamicStyle` and the `Selector` builders (`new`, `id`, `classes`, `widget`, `widget_name`, which only set a field) are not modelled; names are strings compared for equality, widget type names are given as names.
- GooeyStyleLibrary.IntoRgba: the HSL to sRGB conversion of `palette` is not part of this model and is a parameter; floats are `real`, so `f32` rounding error and NaN (which `as u8` maps to 0) are not captured.
- frontends/rasterizer/src/state.rs: widgets are keyed by their numeric id; areas are integer rectangles with the location already cast, and the `i32` overflow of `y - other.y` in `TabEntry::cmp` is not modelled (integers are unbounded); the `Mutex` around the data is not modelled (each method is one atomic step). Instants are natural numbers and `Instant::now()` is a parameter.
- frontends/rasterizer/src/state.rs: `next_tab_entry` and `previous_tab_entry` are not modelled: their child sort relies on `TabEntry::cmp` being a total order, which it is not (see Findings), and their stack traversal terminates only on an acyclic hierarchy, which the state does not enforce. `widgets_under_point`, `widget_area`, `schedule_redraw_in`, the last mouse position, the keyboard modifiers, the configuration and `assets_path` are not modelled (float geometry, plain accessors, and file-system paths).
- frontends/rasterizer/src/lib.rs: the transmogrifier callbacks of `update_hover` (`mouse_move`, `mouse_drag`, `hovered`, `unhovered`) are outside this model; `UpdateHover` takes the new hover set as a parameter and returns the sets of widgets to notify. The event handling, rendering, refresh callbacks and the rest of the `Rasterizer` are not modelled.
- frontends/rasterizer/src/timer.rs: the thread, its channel and `ThreadTimer::schedule` (which starts the thread once and sends the command) are not modelled; the channel's answer to a wait is the `Incoming` parameter of `NextEvent`, the current instant is a parameter, and weak timer handles are ids with the timers still alive given as a map. Callbacks are recorded as the ids fired. `checked_add` overflow of an `Instant` is not modelled (instants are unbounded).
- RasterTimer.BinarySearch: the standard library's bisection order is not modelled; the search is a plain bisection with the documented contract (any matching index, or the insertion point).
- RasterTimer.TimerThread.ProcessElapsed: takes all due timers off the front before firing them; that this is the loop as written whenever no repeating timer has a zero period is stated, not proved.
- src/widgets/pile.rs: `Lots` ids and their generations are modelled as numbers from a counter that are never reused; `WidgetPile` (layout, redraw, `synchronize_widgets`, unmounting), the lock around the data and the `Deref` of a pending widget are not modelled. `show` and `show_and_focus` are `ShowInner` with the flag false and true.
- CushyPile.PileData.ShowInner: the invariant it keeps says every queued id has a slot, not that the slot is filled; a pending widget shown before it is finished has no widget for the layout to find, which the model does not rule out.
- src/widgets/layers.rs: the layout of overlays (`layout_overlay_relative`'s size constraints and origins, the centred origins of `layout_overlay`, `layout_intersects`) is pixel geometry over the widget tree: where a side's layout overlaps is the `blocked` parameter of `ChooseSide`, and only the clamping of an origin is modelled. `Layers` layout and redraw, `ModalLayer`'s reconciliation of presented widgets into layers and its focus, `DialogBuilder`, `Tooltipped`, the fade-in animation, `hit_test`, the `Overlayable` builder setters (record updates) and the `on_dismiss` callbacks are not modelled.
- src/widgets/layers.rs: `is_child_of` in `process_new_overlays` is the `inside` parameter (whether the widget a new overlay is relative to lies inside an overlay's widget; a widget not found lies inside none); `point_is_in_root_relative` is the `outsideRoot` parameter. `OrderedLots` ids are numbers from a counter that are never reused, and a modal handle's shared id cell is one `ModalHandle` object shared by its clones.
- CushyLayers.OverlayState.RemoveChildrenAfter: requires `start` to be at most the number of overlays, as the capacity computation `len - start` does; its callers pass such values.
- src/window.rs: drawing through `kludgine` and `wgpu`, the `winit` event loop, hit testing, the dispatch of mouse and keyboard events to widgets, and the recorder's buffer copies and GPU readback are not modelled; devices, buttons and widgets are numbers and instants are integers.
- CushyCapture.AlignedBytesPerRow: widths are unbounded naturals, so the `u32` overflow of `width + 255` near the top of the range is not modelled.
- CushyCapture.ConvertRgba: `Vec::retain` works in place; the model returns the kept bytes as a new sequence. The `u32` overflow of `width * 4` is not modelled, and the remainder `index % bytes_per_row` is the recursive `Column`, proved equal to it by `ColumnIsRemainder`.
- crates/gooey-core/src/tree.rs: the lock around the data, the shared `Arc` handle and each node's reactive `Value<Style>` are not modelled; names are strings and the arena's ids come from a counter that never reuses one. `GooeyTree.WidgetTree.Drop` requires what the source asserts and expects (the node exists and its children were dropped), so the panics are not modelled.
- src/widgets/tree.rs: the widgets of the nodes, the callback that builds them from the key, the `Dynamic` wrappers, the lock, `expand` and `collapse` (which only set a node's flag) and the layout of `TreeNodeWidget` are not modelled; a node's list of child widgets is modelled as the keys it shows. Keys are unbounded naturals, so the `usize` overflow of the counter is not modelled. The comments of `insert_child` and `insert_after` say that `None` comes back for a missing node or the root; the code inserts a root when no parent is given and unwraps a missing sibling, and the model follows the code (`InsertAfter` requires the sibling, where the source panics). The key type's comment says keys are never reused, but `clear` resets the counter, and the model does so too.
- src/tree.rs: widget instances, the lock and the shared `Arc` are not modelled; a widget is its id, a component is a kind and an integer, and a conversion succeeds exactly when the kinds agree. `Tree::layout`, `reset_render_order`, `reset_child_layouts`, `widgets_at_point`, `parent`, `attach_styles`, `widget` and `query_styles` (several components at once) are not modelled. Pixel coordinates are unbounded integers, so the `i32` overflow of `origin +=` is not modelled. The ghost ranking of the nodes stands for the absence of parent cycles, which the source never checks.
- CushyTree.TreeData.PushBoxed: requires the widget not to be in the tree yet; the source overwrites an existing node, which could leave stale children lists or a cycle of parents on which `is_hovered` would loop.
- CushyTree.TreeData.RemoveChild: requires the parent to exist and to list the child, where the source panics; it leaves the active, focused and hovered ids untouched, as the source does, so they may name removed widgets.
- CushyTree.TreeData.IsHovered: requires the hovered widget to be in the tree or to be the widget asked about, where the source panics on a stale hovered id.
- CushyTree.TreeData.UpdateTrackedWidget: requires the previously tracked widget to be in the tree when it is replaced, where the source panics looking it up; the answer is its id rather than a handle.
- CushyTree.TreeData.Hover: requires what `UpdateTrackedWidget` requires of the hovered widget it replaces; the paths are lists of ids rather than widget handles.
- src/context.rs: the contexts themselves (the window, styles, theme, cursor, layout and redraw plumbing, `for_other`, the hover, focus-search and `next_focus_after` machinery) are not part of this model; the widgets' handlers are parameters saying what each leaves in the pending state, and the tree is reduced to its set of mounted widgets and its active and focused ids. The error logged when a change loop is stopped at 100 is the returned count reaching 100.
- CushyContext.PendingWidgetState.RemoveChild: `Tree::remove_child` as called here takes the unmount queue, a newer form than the one in src/tree.rs modelled by `CushyTree`; it is modelled as unmounting the widget and queuing the ids `detach` gives for it.
- CushyContext.PendingWidgetState.ApplyPendingFocus: requires the tree's focused widget and every widget the focus search picks to be mounted, which the source's lookups guarantee; `allow_blur` is taken not to change the pending state.
- CushyContext.InvalidationStatus: the atomic flags and the mutex are plain fields; concurrent callers are not modelled.
- src/graphics.rs: drawing (shapes, text, images, custom render operations, opacity) and the kludgine renderer are not part of this model; the renderer is reduced to its clip rect, which `clipped_to` is taken to interpret relative to the current clip as its documentation says. `figures`' `intersection` and `into_unsigned` are not part of this model; they are modelled as the overlap with an area and as saturating each component at zero. Pixel values are unbounded integers.
- CushyGraphics.FontState.SynchronizeFontList: the database's new faces are modelled as the face ids `load` gives for a font, each with the family `faceFamily` gives; the ensures states that those faces are present, not the database's exact contents, and `kempt::Map`'s key order is not modelled.
- CushyGraphics.GatherAvailableFamilyNames: the first loop walks the set of first family names rather than the faces one by one; since every name gets the same tag the result is the same.
- src/widgets/grid.rs: `Grid::layout` (the child rects it sets from the offsets and the other lengths), `redraw`, `mounted`, `summarize`, the `GridWidgets`/`GridSection` builders and `GridDimension`'s builder setters are not modelled; the rects are pixel placement through `into_signed`, and the rest are rendering, remounting, formatting or record updates. `from_rows` and `from_columns` are the constructor with the orientation given.
- src/widgets/grid.rs: `GridLayout::push` is `insert` at the end and is not a separate member. Each layout's `baselines` (`reset_baselines`, the first baseline `update_offsets` reports) are not modelled, so `StackLayout` is an offset and a length.
- src/widgets/grid.rs: the `measure` callback of `GridLayout::update` is a pure function of the child, the element and the constraints; whether a call persists the child's layout (`persist`, `as_temporary`) is not modelled, and neither is the final layout pass that `update_offsets` makes when `needs_final_layout` is set, since its answers are discarded.
- src/widgets/grid.rs: `OrderedLots` ids are numbers from a counter that are never reused. `total_weights` is an unbounded sum, so the `u32` overflow of adding a weight is not modelled; offsets are unbounded naturals, so the `UPx` overflow of `offset += size` in `update_offsets` is not modelled. The folds over the layouts are recursive functions.
- CushyGridLayout.GridLayout.Remove: requires `index` to be a child's position, where the source's `Vec::remove` panics.
- CushyGridLayout.GridLayout.Insert: requires `index` to be at most the number of children, where the source's `Vec::insert` panics.
- CushyGridLayout.GridLayout.Swap: requires both positions to be children's positions, where the source's `swap` panics.
- src/widgets/stack.rs: `Stack::layout` is `GridLayout::update` (modelled as `Settle`) followed by the child rects of `ChildRect`; `redraw` is `Shown`. `summarize`, `columns` and `rows` (the constructor with the orientation given) are not separate members.
- crates/gooey-widgets/src/flex/raster.rs: the flex layout computation (`layout::Flex::update`), `measure`, `draw` and the rasterizables of the children are not modelled; each child's placement and the flex's other length are fields. The orientation picks the axis through the grid's `make_point` and `make_size`.
- GooeyFlexRaster.FlexRasterizer.constructor: requires the entries to be distinct, which their `LotId`s guarantee.
- GooeyFlexRaster.FlexRasterizer.SynchronizeChildren: requires the entries to be distinct, which their `LotId`s guarantee.
- GooeyFlexRaster.FlexRasterizer.CursorMoved: requires one placement per child, which the layout gives once it has run; the source zips the two and ignores any surplus.
- src/widgets/virtual_list.rs: the scrollbars (`show_scrollbars`, `hide_scrollbars`, `layout_scrollbars`, the wheel and hover handlers), `redraw`, `hit_test`, the row callback and the mounting of each row are not modelled. `calculate_item_size` and `fill_or_fit` are not modelled: the measured row size and the control size are parameters. Lengths are whole pixels, so sub-pixel `UPx` precision is not modelled.
- CushyVirtualList.VirtualList.Layout: requires a row height above zero, where the source divides by it; `content_height` is an unbounded product, so the `u32` saturation of `item_count` and the overflow of the multiplication are not modelled.
- CushyVirtualList.VirtualList.LayoutRows: requires what `Layout` requires, and at least one row, which `layout` checks before calling it.
- GooeyReactor.Reactor.NewScope: requires the parent scope to exist, where the source's index into the reactor's scopes panics for a scope whose guard was dropped.
- GooeyReactor.Reactor.NewDynamic: requires the scope to exist, where the source's index into the reactor's scopes panics for a scope whose guard was dropped.
- GooeyText.Text.ForEachInRangeMut: requires at least one span, which `Text`'s constructors always give (`cleanup_spans` would panic on none), and a range whose start is at most its end, as a `Range` handed to the span edits is; a reversed range would make the removal's `drain` panic.
- GooeyText.Text.CleanupSpans: requires at least one span, which `Text`'s constructors always give (`cleanup_spans` would panic on none).
- GooeyText.Text.RemoveRange: requires at least one span, which `Text`'s constructors always give, and a range whose start is at most its end, where the source's `drain` panics.
- GooeyText.Text.InsertStr: requires at least one span, which `Text`'s constructors always give (`cleanup_spans` would panic on none).
- GooeyRichText.RichText.RemoveRange: requires the start at or before the end, and an end paragraph that exists when the range spans paragraphs, where the source's index into the paragraphs panics.
- CushyStyles.Styles.InheritFrom: the doc comment of `inherit_from` says existing entries are overwritten, but the code keeps them and adds only the names not yet present; the model follows the code.
- `into_signed` converts unsigned pixel sizes and points to signed ones, which overflows past `i32::MAX`; pixel values are unbounded here, so this overflow in the child rects of `Wrap`, `Expand`, `Scroll`, `Container`, `Grid` and `Stack` is not modelled.

## Findings

| source | as written | input that shows it | evidently intended | confidence | as-written member | corrected member |
|---|---|---|---|---|---|---|
| src/widgets/input.rs:182-192 | `replace_range` clips the start offset to one before the end of the text | text "abc", selection start at offset 3 `Before` and cursor at offset 3 `After` (as a drag leaves it), typing "x": "abx" | clip the start to the text's length, as the end is: "abcx" | not executed; high | CushyInput.ReplaceRangeAsWrittenOverwritesLastChar | CushyInput.Input.ReplaceRange |
| src/widgets/input.rs:245-257 | moving one word left takes the first word whose successor starts at or after the cursor, even when that word starts after the cursor | text "  ab" with the cursor at 1: the cursor moves forward to 2 | move to the last word start before the cursor, or to 0 | not executed; high | CushyInput.PreviousWordStartAsWrittenMovesForward | CushyInput.PreviousWordStart |
| text/src/lib.rs:102-106 | `insert_str` visits every span touched by `offset..offset + 1` and inserts into each | spans "1" and "2", inserting "x" at offset 1: "1xx2" | insert once, into the first span containing the offset: "1x2" | not executed; high | GooeyText.InsertStrAsWrittenDuplicatesAtBoundary | GooeyText.InsertStrIsExact |
| text/src/wrap/tokenizer.rs:99-103 | a line feed pushes `EndOfLine` at once, without emitting the pending run, which then continues after it | the span "ab\ncd": tokens `EndOfLine`, `Characters("abcd")` | emit the pending run before the end of line: `Characters("ab")`, `EndOfLine`, `Characters("cd")` | not executed; high | GooeyTokenizer.AsWrittenMovesLineEnd | GooeyTokenizer.SpanTokensRender |
| text/src/wrap/measured.rs:43-47 | a word token after whitespace or punctuation sets the status to trailing punctuation instead of in-word | a space, then one word written as the spans "he" and "llo": groups `Whitespace`, `Spans[he]`, `Spans[llo]`, while at line start the same spans form one group | set the status to in-word, so a word made of several spans is one group wherever it stands | not executed; medium | GooeyMeasured.AsWrittenSplitsWordAfterWhitespace | GooeyMeasured.CorrectedKeepsWordAfterWhitespace |
| src/styles.rs:889-894 | `exact_dimension` recognises only an excluded start equal to an included end, a range that admits nothing | `DimensionRange::from(Px(10))`, the inclusive range 10..=10 that `Resize::to` builds: `None` | recognise an included start equal to an included end: `Some(Px(10))` | not executed; high | CushyStyles.ExactDimensionAsWrittenMissesSingle | CushyStyles.ExactDimensionIsSingle |
| src/widgets/spacing.rs:177-181 | the layout's size adds up the margins only, leaving out the content | zero margins around a 100 by 50 child sized to fit within 1000: a 0 by 0 widget | add the content to the margins, as `Align`'s layout does: 100 by 50 | not executed; high | CushySpacing.SpacingAsWrittenDropsContent | CushySpacing.MeasuredSizeCoversContent |
| src/widgets/wrap.rs:141-152 | a row's height is raised by each child before the check that moves that child to the next row | children of 60 by 10 and 60 by 50 in a width of 100: the first row, holding only the first child, is 50 tall | raise the row's height only for children that stay on it: 10 | not executed; medium | CushyWrap.WrappedChildRaisesRowAsWritten | CushyWrap.FillNextRow |
| widgets/src/list.rs:291-301 | `alpha` writes `a + value % 26` for each base-26 digit, least significant first | item 1 of a lower-case alphabetic list: "b."; item 26: "ab." | the usual alphabetic numbering: "a.", "z." for 26 and "aa." for 27 | not executed; medium | GooeyList.AlphaAsWrittenSkipsA | GooeyList.AlphaLabelSingleLetters |
| src/dialog/native.rs:26-31 | the yes/no/cancel table captions an uncaptioned cancel button "Yes", while the answer is matched against "Cancel" | a yes/no box with yes caption "Save", a default no button and a default cancel button: buttons "Save", "No", "Yes"; choosing the third matches no button and panics | caption the cancel button "Cancel", as the OK/Cancel table and the `Modal` do | not executed; high | CushyNativeDialog.CancelCaptionAsWrittenPanics | CushyNativeDialog.CustomCaptionsDispatch |
| src/dialog/native.rs:160-165 | the no button also matches the default caption "No" when it has a caption of its own | a yes/no box with no caption "Discard" and cancel caption "No": choosing "No" runs the no button | match the caption the no button is shown with, so "No" runs the cancel button | not executed; medium | CushyNativeDialog.NoCaptionAsWrittenChoosesNegative | CushyNativeDialog.CustomCaptionsDispatch |
| crates/gooey-core/src/style/classes.rs:187-188 | the iterator over a still-shared list yields the name at `index` only when `index + 1` is below the length | a class list [a, b] that is cloned and then iterated by value: yields only a | yield while `index` is below the length, as the unshared iterator does: a, b | not executed; high | GooeyClasses.SharedIterationLosesLast | GooeyClasses.CollectCorrected |
| frontends/rasterizer/src/state.rs:487-503 | `TabEntry::cmp` compares y only when the origins are 10 or more apart and x otherwise, which is not transitive, although `Ord` and the child sort in `next_tab_entry` require a total order | entries without tab indices at (10, 0), (0, 10) and (5, 5): the first is before the second, the second before the third and the third before the first | compare by 10-unit row bands, then by x, which is a total order and agrees with the comparison on far-apart rows and within a band | not executed; high | RasterState.TabCmpNotTransitive | RasterState.TabCmpByBandIsOrder |
| frontends/rasterizer/src/timer.rs:61-70 | the elapsed-timer loop runs while the first timer is due at `now`, and puts a repeating timer back at `now + period` | a repeating timer scheduled with a zero period: once due it is put back due at `now`, so the loop fires it forever and the thread never waits for commands again | fire each timer that is due once per elapsed event, and reschedule it for later | not executed; medium | RasterTimer.AsWrittenZeroPeriodSpins | RasterTimer.TimerThread.ProcessElapsed |
| src/widgets/pile.rs:168-176 | `finish` pushes the id onto the back of the visible queue even when the pending widget was already shown through its handle | `new_pending`, `show`, `finish`, then `remove`: the queue goes [0], [0, 0], [0] while slot 0 is gone, and the next layout's `expect("visible widget")` panics | queue the id only when it is not queued already, so removal or dropping takes it out of the queue | not executed; medium | CushyPile.ShowFinishRemoveAsWritten | CushyPile.PileData.Finish |
| src/widgets/layers.rs:482-497 | when the layout on a side overlaps, the search stops if the side it is on equals the requested side, which is always true on the first try, so it never turns clockwise | an overlay shown to the right of a widget whose right side is covered by another overlay, with the space below free: it stays on the right, overlapping | stop once the next side would be the requested one, so each of the four sides is tried: the overlay goes below | not executed; high | CushyLayers.SideSearchAsWrittenNeverTurns | CushyLayers.ChooseSide |
| src/graphics.rs:131-133 | `visible_rect` converts the region to unsigned pixels before intersecting, without the negative-origin adjustment `clipped_to` makes, so a region starting left of or above the window keeps its full size from the clamped origin | region at x = -5, 10 wide, inside a 100×100 clip: the visible rect covers x from 0 to 10, though the region ends at x = 5 | shrink the size by the negative origin first, as `clipped_to` does: the visible rect covers x from 0 to 5 | not executed; medium (assumes `into_unsigned` saturates negative pixels at zero) | CushyGraphics.VisibleRectAsWrittenTooWide | CushyGraphics.VisibleRect |
| src/widgets/grid.rs:356-358 | `GridLayout::swap` swaps the children but not their layouts, and a measured child's length is set only on insertion and on a change of scale | a measured 10px child swapped with a fit-content child: the 10px length stays at position 0, now the fit-content child's, and the measured child at position 1 has length 0 | swap the layouts with the children, so each measured length moves with its child | not executed; medium | CushyGridLayout.SwapAsWrittenMisplacesLength | CushyGridLayout.GridLayout.Swap |
| src/widgets/grid.rs:111-112 | `Grid::synchronize_children` swaps the layout's children at two row positions, but the layout's children are the column specs, not the rows | a one-column grid whose two rows trade places: the layout swaps column 1, which does not exist; with two columns, the two column specs trade places | leave the layout alone when rows move: the column specs stay as they are | not executed; high | CushyGrid.RowSwapAsWrittenSwapsColumns | CushyGrid.Grid.SynchronizeChildren |
| src/widgets/stack.rs:59-63, 104 | the synced list keeps what each child mounts (an `Expand`'s or `Resize`'s inner child), but the comparison is with the child itself | a stack holding an `Expand` (id 5) around child 7: every resynchronization inserts the `Expand` again and removes the mounted 7 | compare each child with the child it was synced from, so unchanged children are kept | not executed; medium (assumes the comparison is by widget identity) | CushyStack.ResyncAsWrittenRemounts | CushyStack.Stack.SynchronizeChildren |
| src/widgets/grid.rs:534-541 | the fill of the other axis divides the space left by the number of others, which is zero for a grid without rows | a grid with no rows laid out with a `Fill(1)` other constraint: `remaining / 0` | skip the split when there are no others: nothing to share, total 0 | not executed; medium | CushyGridUpdate.FillOthersDividesByZero | CushyGridUpdate.FillOthers |
| src/widgets/virtual_list.rs:283-285 | `visible_range` is set to `start..end`, but `end` is the last row kept and is shown | three 10px rows in a 30px control at scroll 0: rows 0 to 2 show, the range is 0..2 | end the range at the first row past the control or at the row count: 0..3 | not executed; medium | CushyVirtualList.VisibleRangeAsWrittenMissesLastRow | CushyVirtualList.VisibleRange |
