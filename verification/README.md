# Windows console host: a verified model

This project models the parts of the Windows console host and of the libraries bundled with it whose correctness
rests on an invariant that no single function shows, and proves them in Dafny 4.11. `dafny verify dfyconfig.toml`
checks all of it. Code that updates lists, buffers or fields is modelled as classes and methods with loops, each
proved against a specification function; what the code is for is proved about those functions, for all inputs and
all runs.

* **Rectangle packer** (`Skyline`, `Packing`, `FreeColumns`, `PackingRuns`, `RectPacker`, `PackRects`,
  `Sorting`): the skyline as a
  sequence of segments, the search and the insertion on it, runs of rectangles, the same on two intrusive linked
  lists of heap nodes, and the outer loop that sorts, packs and restores the order.
* **Interval tree** (`IntervalTree`): building the tree and answering queries, generic in the scalar and its order.
* **Input queue** (`InputEvents`, `InputQueue`, `InputText`, `InputBuffer`): expansion of stored events, reads and
  peeks with the spill cache, merging of repeated keys, and conversion of text in chunks.
* **VT output** (`VtWriter`, `NewlineTranslation`): nested batches with double buffering, and the rewrite of line
  feeds.
* **Command line arguments** (`Arguments`): escaping, and splitting by the documented backslash and quotation rules.
* **Command history** (`History`): the bounded list with its floating index and cyclic search.
* **Cooked read** (`CookedLayout`, `StartColumn`, `CookedPager`, `CookedCursor`, `LineEditing`, `KeyEffects`,
  `GraphemeEditing`, `CookedEditor`): laying out a line, the search for the start column, the redisplay and its pager,
  where the cursor is drawn, and the line editor with its popups.

`Wide` and `Basics` hold the machine words and the small functions they share.

## What turned out different

Where the code falls short of what it or its documentation promises, the model follows the code, shows an input on
which it does, and gives the exact condition.

* Line layout (`src/host/readDataCooked.cpp:1378-1384`): a control character that exactly fills a line is put on it
  but not consumed, because the jump out of the loop skips the increment. It is laid out again on the next line
  (`CookedLayout.ControlIsLaidOutTwice`; exactly when, for ASCII text: `CookedPager.AsciiIsFaithfulIff`, for any text:
  `CookedPager.TextIsFaithfulIff`).
  Where it fills a whole line (a tab in at most eight columns, any other in at most two) the layout never ends
  (`CookedLayout.TabNeverEndsInEightColumns`; exactly when: `CookedLayout.LayoutTerminatesIff`).
* Line layout (`src/host/readDataCooked.cpp:1316-1323`): a wide glyph that begins a run of text in the last column is
  left out, although the comment there speaks of one-column terminals only, and since the column is not advanced so
  are all wide glyphs that follow it (`CookedLayout.WideGlyphIsLost`, `CookedPager.AllLeadingWideAreLost`; exactly
  when: `CookedPager.PlainIsFaithfulIff`). A run begins wherever the dirty part of the buffer does, so the same text and
  cursor are drawn differently depending on what was typed last (`CookedCursor.CursorDependsOnDirt`; exactly when, for
  the unit just typed: `CookedCursor.TypedCursorIff`; for any text the cursor is right wherever nothing before it is
  dropped or repeated, `CookedCursor.CursorIsDrawn`, which is exactly where `CookedCursor.FaithfulToIff` says).
* Packer (`oss/stb/stb_rect_pack.h:241-259`): quantised widths do not make the given number of nodes suffice; only as
  many nodes as columns do, or fewer in a target of one row (`PackingRuns.RunsOut`; exactly when:
  `PackingRuns.NodesSufficeIff`).
* Input queue (`src/host/inputBuffer.cpp:460`): a peek with a code page spills into the cache too, so a later read gets
  bytes twice (`InputQueue.PeekedByteComesTwice`; exactly when: `InputQueue.PeekIsHarmlessIff`).
* Input queue (`src/host/inputBuffer.cpp:460-470`): a read that ends inside the bytes of the last key resets the event
  although bytes are still pending in the cache (`InputQueue.HalfKeyStaysPending`; exactly when:
  `InputBuffer.InputBuffer.Read` and `InputQueue.SilentWhilePendingIff`).
* Merging (`src/host/inputBuffer.cpp:747-781`): the sum of the repeat counts is a 16-bit number, so 65535 repetitions
  and one more are seen once (`InputQueue.FullCountIsLost`; exactly when: `InputQueue.MergeIsInvisibleIff`).
* Text (`src/host/inputBuffer.cpp:96`): the slow path advances by one unit for a surrogate pair, whose second half the
  next call delivers once more (`InputText.PairIsRepeated`; exactly when: `InputText.FaithfulIff`).
* History (`src/host/history.cpp:111-118`): after the command at the floating index was removed from outside, the
  search for a duplicate starts at index -1, throws, and finds nothing (`History.OutsideRemoveLosesSuppression`;
  exactly when: `History.AddKeepsDistinctIff`).
* Line editing (`src/host/readDataCooked.cpp:632-638`): with no command in the history, the first Up erases what was
  typed, because only an index of 0 without the reset flag counts as the first command
  (`KeyEffects.UpErasesTypedText`; exactly when: `KeyEffects.UpOnEmptyHistoryIff`).
* Line editing (`src/host/readDataCooked.cpp:507-516`, `624-631`): erasing a grapheme can leave the cursor inside one
  that its neighbours now form (`GraphemeEditing.DeleteLeavesBoundary`; exactly when, for segmentations decided by
  neighbouring units: `GraphemeEditing.DeleteKeepsBoundaryIff`, `GraphemeEditing.EraseKeepsBoundaryIff`).
* Command lines (`src/host/ConsoleArguments.cpp:304-330`): the first argument taken is read as a program name, by a
  rule without escapes, so escaping it can change it (`Arguments.NameIsChanged`; exactly when:
  `Arguments.LineRoundTripIff`).

## Model

| member | source | states |
|---|---|---|
| `Skyline.WalkIsExact` | oss/stb/stb_rect_pack.h:287-335 | the y found is the maximum of the column heights over the span wherever it starts, and the waste is the area between y and the skyline if it starts at a node edge, in a raised node, or ends in the node it starts in |
| `Packing.AlignedIsMultiple` | oss/stb/stb_rect_pack.h:350-352 | the width searched for is a multiple of the alignment |
| `Packing.LeftPassGenuine` | oss/stb/stb_rect_pack.h:360-384 | the pass over left edges yields a position that is really free down to its y, never a higher one than before |
| `Packing.LeftPassBeats` | oss/stb/stb_rect_pack.h:360-384 | no left edge is lower than the pass's result, and none left of it as low under bottom-left |
| `Packing.RightPassGenuine` | oss/stb/stb_rect_pack.h:406-437 | the pass over right edges keeps the result genuine, fitting and no higher |
| `Packing.ShiftLeft` | oss/stb/stb_rect_pack.h:343-387 | moving a span left to its node's edge never raises it, which is why edges suffice |
| `Packing.BestIsLowest` | oss/stb/stb_rect_pack.h:343-443 | the search over node edges against all integer columns: genuine, found whenever any column fits, none lower; under bottom-left also leftmost |
| `Packing.InsertIsValid` | oss/stb/stb_rect_pack.h:461-495 | insertion keeps the skyline strictly increasing from 0 to the sentinel |
| `Packing.InsertHeight` | oss/stb/stb_rect_pack.h:461-495 | the new skyline is at the new top over the new node and unchanged in every other column |
| `Packing.PackPlaces` | oss/stb/stb_rect_pack.h:445-495 | a packed box lies on a free aligned span, inside the target, under the new skyline, and no column gets lower |
| `Packing.PackKeepsHolds` | oss/stb/stb_rect_pack.h:445-495 | each step keeps all boxes pairwise disjoint, inside the target and under the skyline, with no node lost |
| `Packing.PackSucceedsIff` | oss/stb/stb_rect_pack.h:455-458 | packing succeeds if and only if a node is free and some column fits |
| `Packing.BottomLeftIsOptimal` | oss/stb/stb_rect_pack.h:343-387 | the packed position is the lowest over all columns and the leftmost of those |
| `FreeColumns.BestAtEdge` | oss/stb/stb_rect_pack.h:343-443 | while the free columns are the last ones, whatever either heuristic finds at height zero is at their left edge |
| `FreeColumns.PackKeepsLow` | oss/stb/stb_rect_pack.h:445-495 | packing keeps the free columns the last ones, under either heuristic and any alignment |
| `FreeColumns.LowWasteIsExact` | oss/stb/stb_rect_pack.h:307-334 | then height and waste of a walk are exact wherever it starts |
| `FreeColumns.BestFitWastesLeast` | oss/stb/stb_rect_pack.h:372-437 | of all fitting positions at which an edge meets a node, best-fit takes the lowest, of those one with the least area wasted, and of those the leftmost |
| `FreeColumns.BestFitIsWeighed` | oss/stb/stb_rect_pack.h:372-437 | the waste compared is the area really wasted at the position taken |
| `PackingRuns.Fresh` | oss/stb/stb_rect_pack.h:261-284 | an initialised target satisfies the packer's invariant with nothing packed |
| `PackingRuns.Run` | oss/stb/stb_rect_pack.h:542-580 | over every run of rectangles the invariant holds: disjoint, inside, under the skyline |
| `PackingRuns.RunOnlyAdds` | oss/stb/stb_rect_pack.h:542-580 | over every run packed boxes stay and no column gets lower |
| `PackingRuns.EveryWalkIsExact` | oss/stb/stb_rect_pack.h:287-335 | over every run, with changes of heuristic and alignment in between, every walk from any column finds the height and the waste exactly, column by column |
| `PackingRuns.EnoughNodes` | oss/stb/stb_rect_pack.h:257-257 | with as many nodes as columns a node is free in every reachable state |
| `PackingRuns.NodesSufficeIff` | oss/stb/stb_rect_pack.h:241-259 | for every target and either heuristic, the documented guarantee holds over all runs if and only if there are as many nodes as columns or, in one row, nodes enough to come within a quantum of the right edge |
| `PackingRuns.RowServes` | oss/stb/stb_rect_pack.h:455-458 | in a target of one row with that many nodes, every rectangle that fits is packed, under either heuristic |
| `PackingRuns.RunsOut` | oss/stb/stb_rect_pack.h:141-149 | with too few nodes unit squares use them up while there is room for more |
| `RectPacker.Context.constructor` | oss/stb/stb_rect_pack.h:261-284 | both lists are set up and show a fresh target |
| `RectPacker.Context.SetupAllowOutOfMem` | oss/stb/stb_rect_pack.h:241-259 | only the alignment changes, to one or the quantum |
| `RectPacker.Context.SetupHeuristic` | oss/stb/stb_rect_pack.h:229-239 | only the heuristic changes |
| `RectPacker.Context.FindMinY` | oss/stb/stb_rect_pack.h:287-335 | the walk over linked nodes computes the walk over the skyline, and its asserts hold |
| `RectPacker.Context.SearchLeft` | oss/stb/stb_rect_pack.h:360-384 | the loop over left edges is the left pass, with the link to the node found |
| `RectPacker.Context.SearchRight` | oss/stb/stb_rect_pack.h:406-437 | the loop over right edges is the right pass, with the link to the node found |
| `RectPacker.Context.FindBestPos` | oss/stb/stb_rect_pack.h:343-443 | the result is the search's on the skyline |
| `RectPacker.Context.FreeCovered` | oss/stb/stb_rect_pack.h:479-486 | exactly the covered nodes move to the free list, in order |
| `RectPacker.Context.InsertNode` | oss/stb/stb_rect_pack.h:461-495 | after the surgery both lists are well linked, disjoint and show the inserted skyline |
| `RectPacker.Context.PlaceNode` | oss/stb/stb_rect_pack.h:461-519 | the lists hold the same nodes as before, none lost, none shared |
| `RectPacker.Context.PackRectangle` | oss/stb/stb_rect_pack.h:445-522 | one call is one step of the packer, and the box joins those packed |
| `PackRects.ReorderKeepsTags` | oss/stb/stb_rect_pack.h:546-553 | reordering keeps which original rectangle each one stems from |
| `PackRects.OriginalOrderRestored` | oss/stb/stb_rect_pack.h:568-569 | sorting by tag gives back the original order, ids and sizes |
| `PackRects.SortRects` | oss/stb/stb_rect_pack.h:552-553 | the array becomes a sorted permutation |
| `PackRects.TagAll` | oss/stb/stb_rect_pack.h:546-549 | every rectangle is tagged with its index |
| `PackRects.PackOne` | oss/stb/stb_rect_pack.h:555-566 | an empty rectangle goes to the origin, a packed one gets its box, a failed one the maximum |
| `PackRects.PackSorted` | oss/stb/stb_rect_pack.h:555-566 | the loop settles every rectangle, without overlaps, as the run over their sizes does |
| `PackRects.SetFlags` | oss/stb/stb_rect_pack.h:571-577 | the flags and the overall result tell exactly which rectangles failed |
| `PackRects.PackAll` | oss/stb/stb_rect_pack.h:542-580 | the rectangles are packed tallest first and among equally tall ones widest first; all keep order, id and size; those flagged as packed are pairwise disjoint and inside; earlier boxes stay |
| `IntervalTree.MakeInterval` | oss/interval_tree/IntervalTree.h:22-25 | the ends are put in order |
| `IntervalTree.OverlapIsVisited` | oss/interval_tree/IntervalTree.h:214-231 | every interval that overlaps the query is visited as often as it is stored, whatever the centers are |
| `IntervalTree.PruningIsExact` | oss/interval_tree/IntervalTree.h:214-283 | for any predicate that implies overlapping, filtering the visited intervals equals filtering the original vector |
| `IntervalTree.Collect` | oss/interval_tree/IntervalTree.h:214-231 | visiting with a pushing function appends the matching visited intervals |
| `IntervalTree.FindOverlapping` | oss/interval_tree/IntervalTree.h:242-274 | as a multiset, exactly the linear filter of the original vector, for every query pair and every total order |
| `IntervalTree.FindContained` | oss/interval_tree/IntervalTree.h:256-283 | the same for containment, for intervals with start at most stop |
| `IntervalTree.Split` | oss/interval_tree/IntervalTree.h:166-188 | the three lists are the intervals left of, right of and across the center, in order |
| `IntervalTree.SplitKeepsAll` | oss/interval_tree/IntervalTree.h:166-188 | together they are the input as a multiset |
| `IntervalTree.ChildrenShrink` | oss/interval_tree/IntervalTree.h:166-206 | with a center between its arguments both children are strictly smaller than the input |
| `IntervalTree.IntOpsAreBalanced` | oss/interval_tree/IntervalTree.h:153-162 | integer division by two gives such a center |
| `IntervalTree.JoinIsBuilt` | oss/interval_tree/IntervalTree.h:190-206 | a node over built children is built: same multiset, sorted lists, separated sides, height at most depth |
| `IntervalTree.Build` | oss/interval_tree/IntervalTree.h:118-210 | building keeps the input as a multiset, sorts every list, separates the sides and respects the depth |
| `IntervalTree.BuildNode` | oss/interval_tree/IntervalTree.h:166-206 | distributing and recursing gives a built tree |
| `InputEvents.TakenAndRest` | src/host/inputBuffer.cpp:396-458 | what a read takes and what it leaves are the in-order expansion of the queue |
| `InputEvents.TakenIsEnough` | src/host/inputBuffer.cpp:396-458 | a read takes as much as there is room for or empties the queue |
| `InputEvents.UnicodeNeverOvershoots` | src/host/inputBuffer.cpp:396-458 | as Unicode it never takes more than that |
| `InputQueue.ReadIsPrefix` | src/host/inputBuffer.cpp:372-471 | a read delivers the first records pending, at most the amount asked for, and leaves the others pending |
| `InputQueue.UnicodePeekIsHarmless` | src/host/inputBuffer.cpp:183-201 | as Unicode a peek changes nothing |
| `InputQueue.PeekIsHarmlessIff` | src/host/inputBuffer.cpp:460-460 | whatever is cached, peeks are harmless if and only if reading as Unicode or every stored key converts to one byte |
| `InputQueue.PeekedByteComesTwice` | src/host/inputBuffer.cpp:460-460 | after a peek of one record of a two-byte key, a read of three delivers the second byte, the first and the second |
| `InputQueue.SilentWhilePendingIff` | src/host/inputBuffer.cpp:460-470 | a read that delivers something empties the storage with records pending if and only if it ends inside the records of the last repetition stored |
| `InputQueue.HalfKeyStaysPending` | src/host/inputBuffer.cpp:460-470 | reading one record of a two-byte key empties the storage with the second byte pending |
| `InputQueue.MergeIsInvisibleIff` | src/host/inputBuffer.cpp:747-781 | a stream reader, as Unicode or in a code page, cannot tell a merged key from two if and only if the counts add up |
| `InputQueue.FullCountIsLost` | src/host/inputBuffer.cpp:764-776 | a count of 65535 and one more are seen as a single key |
| `InputQueue.MovesKeepLatest` | src/host/inputBuffer.cpp:747-759 | however often the mouse moves, one move is stored, with the latest position |
| `InputQueue.ClicksAreKept` | src/host/inputBuffer.cpp:747-759 | mouse events other than moves are stored one by one |
| `InputQueue.RunDelivers` | src/host/inputBuffer.cpp:166-217 | over every run of reads and of writes that do not merge, nothing is lost, duplicated or reordered |
| `InputQueue.RunIsSeen` | src/host/inputBuffer.cpp:676-781 | over every run a stream reader, as Unicode or in a code page, sees what it would without any merging |
| `InputText.FaithfulIff` | src/host/inputBuffer.cpp:38-123 | a call delivers a prefix of the conversion and keeps the rest if and only if it does not take a surrogate pair on the slow path |
| `InputText.ChunksDoNotMatter` | src/host/inputBuffer.cpp:38-156 | any sequence of target sizes delivers the code-page conversion of a text without pairs |
| `InputText.PairIsRepeated` | src/host/inputBuffer.cpp:96-96 | of a pair of four bytes read one byte at a time, the next call delivers three and then a replacement for its second half |
| `InputBuffer.QuietWriteStores` | src/host/inputBuffer.cpp:676-731 | with VT input off and no key that resumes or suspends output, a write stores its events, a single one merged |
| `InputBuffer.RunningWritesAppend` | src/host/inputBuffer.cpp:676-731 | events none of which resumes or suspends output are all stored, each as itself or as the sequence it is translated to, in order and behind what was stored |
| `InputBuffer.CharEventsSpell` | src/host/inputBuffer.cpp:794-810 | a sequence is stored as one key press for each of its units, in order |
| `InputBuffer.TranslatedIsRead` | src/host/inputBuffer.cpp:676-731 | with VT input on, a Unicode reader gets what was pending and then the units of the translated text, one key press each, in order |
| `InputBuffer.KeyResumesOutput` | src/host/inputBuffer.cpp:686-693 | the first key pressed while output is suspended is not stored and resumes it, and the rest is written as if it began there |
| `InputBuffer.PauseAndKeyLeaveNoTrace` | src/host/inputBuffer.cpp:686-699 | while lines are read, a pause key and the next key pressed change neither the queue nor whether output is suspended |
| `InputBuffer.CtrlSPauses` | src/host/inputBuffer.cpp:638-647 | Ctrl+S with either Ctrl key is a pause key, S alone or with Alt is not |
| `InputBuffer.KeysStayInOrder` | src/host/inputBuffer.cpp:347-353 | what is kept of a queue is what is kept of its parts, in order, a single event exactly if it is a key event |
| `InputBuffer.InputBuffer.SwitchReadingMode` | src/host/inputBuffer.cpp:219-238 | changing the mode drops what an earlier read left over |
| `InputBuffer.InputBuffer.PushKey` | src/host/inputBuffer.cpp:405-440 | a key is pushed once for each repetition while there is room, and the count left is exact |
| `InputBuffer.InputBuffer.Gather` | src/host/inputBuffer.cpp:396-458 | the loop delivers what the specification takes and leaves the rest stored |
| `InputBuffer.InputBuffer.TakeCached` | src/host/inputBuffer.cpp:166-201 | cached records come first; a peek copies them |
| `InputBuffer.InputBuffer.CacheExtra` | src/host/inputBuffer.cpp:205-217 | what exceeds the amount is cached, nothing else |
| `InputBuffer.InputBuffer.Read` | src/host/inputBuffer.cpp:372-475 | the new queue, the records and the event are the specification's; a read turns the event off with records pending if and only if it ends inside the last ones |
| `InputBuffer.InputBuffer.WakeUpReaders` | src/host/inputBuffer.cpp:649-663 | the event is signalled whenever something is stored |
| `InputBuffer.InputBuffer.TryCoalesce` | src/host/inputBuffer.cpp:747-781 | the last event absorbs the new one exactly where the rule allows it |
| `InputBuffer.InputBuffer.WriteBuffer` | src/host/inputBuffer.cpp:676-731 | the loop stores what the specification stores, which the lemmas on running, translated and swallowed events describe |
| `InputBuffer.InputBuffer.Write` | src/host/inputBuffer.cpp:548-567 | what is stored is the specification's; the caches stay and the signal invariant holds |
| `InputBuffer.InputBuffer.Prepend` | src/host/inputBuffer.cpp:486-521 | the events stand in front of all stored ones, which are unchanged |
| `InputBuffer.InputBuffer.Flush` | src/host/inputBuffer.cpp:333-337 | nothing is stored and the event is clear |
| `InputBuffer.InputBuffer.FlushAllButKeys` | src/host/inputBuffer.cpp:347-353 | exactly the key events stay, in order |
| `InputBuffer.InputBuffer.ConsumeA` | src/host/inputBuffer.cpp:38-123 | one call is one step of the text specification; the spill cache is empty where the code asserts it |
| `InputBuffer.InputBuffer.ConsumeW` | src/host/inputBuffer.cpp:50-57 | without conversion, the next units are moved, as many as fit |
| `InputBuffer.InputBuffer.SlowPath` | src/host/inputBuffer.cpp:82-118 | the loop over items is the slow path of the specification |
| `NewlineTranslation.TranslationOnlyInserts` | src/host/VtIo.cpp:610-645 | deleting the inserted carriage returns gives the input back, and each run of breaks gets at most one |
| `NewlineTranslation.TranslationKeepsMeaning` | src/host/VtIo.cpp:610-645 | the output where a line feed keeps the column ends in the state of the input where it returns, for any effect of other characters |
| `NewlineTranslation.WriteTranslated` | src/host/VtIo.cpp:610-645 | the loop emits the translation |
| `VtWriter.RunIsSafe` | src/host/VtIo.cpp:470-555 | over every run the front buffer is never changed while a write from it is pending |
| `VtWriter.OpenCollects` | src/host/VtIo.cpp:430-468 | while any writer is open nothing is sent; text, save and taint are collected |
| `VtWriter.BatchIsAtomic` | src/host/VtIo.cpp:439-555 | when the outermost writer closes the whole batch goes out as one write, ending with one restore if the cursor was saved, or nothing if any writer was dropped |
| `VtWriter.BatchesGoOutInOrder` | src/host/VtIo.cpp:430-555 | over every run of batches each goes out whole, in order, or not at all, and nothing else does, whatever the terminal answers |
| `VtWriter.HealthyBatchesGoOut` | src/host/VtIo.cpp:494-555 | on a terminal that takes every write, at once or later, exactly the batches with text and no dropped writer go out |
| `VtWriter.OneSave` | src/host/VtIo.cpp:557-564 | a batch holds one cursor save, where it was first asked for |
| `VtWriter.BatchRestoresCursor` | src/host/VtIo.cpp:470-569 | on a terminal where ESC 7 saves and ESC 8 restores, a batch that goes out and whose text does neither leaves the cursor where it was when it was first saved |
| `VtWriter.VtIo.FlushNow` | src/host/VtIo.cpp:470-555 | the flush on the fields is the flush of the specification |
| `VtWriter.VtIo.Uncork` | src/host/VtIo.cpp:461-468 | only the last close flushes |
| `VtWriter.Writer.constructor` | src/host/VtIo.cpp:430-437 | opening a writer corks once; one without a terminal does nothing |
| `VtWriter.Writer.Submit` | src/host/VtIo.cpp:455-459 | submitting closes the writer without taint |
| `VtWriter.Writer.Destroy` | src/host/VtIo.cpp:439-448 | a writer not submitted taints the batch |
| `VtWriter.Writer.BackupCursor` | src/host/VtIo.cpp:557-564 | the first backup of a batch appends a save and asks for the restore |
| `VtWriter.Writer.WriteUtf8` | src/host/VtIo.cpp:566-569 | text is appended to the batch |
| `Arguments.ReadBody` | src/host/ConsoleArguments.cpp:72-90 | the splitter reads the escaped body back as the argument, with its trailing backslashes pending |
| `Arguments.ReadEscaped` | src/host/ConsoleArguments.cpp:33-104 | an escaped argument is read back as that argument, also an empty one |
| `Arguments.RoundTrip` | src/host/ConsoleArguments.cpp:304-330 | splitting the joined escaped arguments gives every list of arguments back |
| `Arguments.NameSurvivesIff` | src/host/ConsoleArguments.cpp:33-104 | an escaped argument is read back as a program name if and only if it has no quotation mark and not both a blank and a backslash at its end |
| `Arguments.NameIsChanged` | src/host/ConsoleArguments.cpp:92-101 | a name with a blank and a backslash at its end comes back with two |
| `Arguments.LineRoundTripIff` | src/host/ConsoleArguments.cpp:304-330 | a whole command line of escaped arguments splits into them if and only if the first can be a program name |
| `Arguments.CountSpecial` | src/host/ConsoleArguments.cpp:39-58 | blanks are noticed, and the count is the length exactly if nothing needs a backslash |
| `Arguments.EscapeArgument` | src/host/ConsoleArguments.cpp:33-104 | the loop with its backslash counter builds the escaped form |
| `Arguments.GetClientCommandline` | src/host/ConsoleArguments.cpp:304-330 | the arguments before the index stay, the command line splits into those taken, and read with a program name in front it does so if and only if the first can be one |
| `History.SearchIsCompleteIff` | src/host/history.cpp:432-477 | the cyclic search succeeds if and only if it starts at a real index and some command matches, and yields the match nearest going back |
| `History.FoundIsEqual` | src/host/history.cpp:432-477 | an exact match found is the command itself |
| `History.AddKeeps` | src/host/history.cpp:89-154 | Add never indexes out of range and keeps the invariant |
| `History.RunKeeps` | src/host/history.cpp:83-500 | over every run of all operations the count is bounded and the index within -1 and the last command |
| `History.AddKeepsDistinctIff` | src/host/history.cpp:89-154 | with suppression, distinct commands stay distinct if and only if the index is not lost with the reset flag set and an older copy stored |
| `History.RunIsDistinct` | src/host/history.cpp:89-154 | over every run with suppression and without outside removal no two commands are equal |
| `History.AddKeepsNewest` | src/host/history.cpp:89-154 | after Add the history holds the newest commands there is room for of the list with the command noted: with suppression moved to the end, without it appended unless it is the newest |
| `History.FullForgetsOldest` | src/host/history.cpp:121-127 | in a full history the oldest command makes room |
| `History.RunKeepsNewest` | src/host/history.cpp:89-154 | over every run of adding, recalling and looking, the history holds the last commands of the unbounded list: with suppression the list in order of last use |
| `History.DistinctAddsKeepNewest` | src/host/history.cpp:89-154 | of distinct commands added to an empty history the last ones stay, as many as there is room for, in order |
| `History.OutsideRemoveLosesSuppression` | src/host/history.cpp:408-428 | a run with an outside removal that stores a command twice |
| `History.RecallIff` | src/host/history.cpp:170-192 | going back right after Add shows the command added, unless it was the newest already and the user had walked elsewhere |
| `History.RemoveKeepsPlace` | src/host/history.cpp:408-428 | removing another command keeps the index on the same command |
| `History.WalkBack` | src/host/history.cpp:170-204 | going back k times shows the k-th command before the index and stops at the oldest |
| `History.WalkForward` | src/host/history.cpp:170-204 | going on k times shows the k-th command behind the index and stops at the newest |
| `History.BackAndOn` | src/host/history.cpp:170-204 | k steps back and k steps on give the state back |
| `History.ReallocThenBack` | src/host/history.cpp:239-251 | a history cut to another size keeps its oldest commands, and going back shows them from the newest kept |
| `History.SwapExchanges` | src/host/history.cpp:491-500 | a swap exchanges two commands, leaves the others, and undoes itself |
| `History.CommandHistory.Add` | src/host/history.cpp:89-154 | the method is the specification's step, refuses only without room for any command, and leaves the newest commands of the list with the new one noted |
| `History.CommandHistory.Append` | src/host/history.cpp:122-148 | the step is the specification's, in which the oldest command makes room, and the index used is in range |
| `History.CommandHistory.FindMatchingCommand` | src/host/history.cpp:432-477 | result, index and flag are the specification's |
| `History.CommandHistory.SearchBack` | src/host/history.cpp:459-473 | the loop is the cyclic search, ended by an index out of range |
| `History.CommandHistory.Retrieve` | src/host/history.cpp:170-192 | the index moves as specified and the command at it is returned |
| `History.CommandHistory.RetrieveNth` | src/host/history.cpp:194-204 | the index is clamped and the command at it is returned |
| `History.CommandHistory.Remove` | src/host/history.cpp:408-428 | the command is taken out and returned, and the index follows |
| `History.CommandHistory.Swap` | src/host/history.cpp:491-500 | two commands in range change places |
| `History.CommandHistory.Realloc` | src/host/history.cpp:239-251 | the oldest commands up to the new size stay |
| `History.CommandHistory.Empty` | src/host/history.cpp:211-216 | nothing is stored and the index is lost |
| `CookedLayout.FitTextBounds` | src/buffer/out/textBuffer.cpp:422-477 | text that fits whole takes at most the limit, and nothing fits if and only if one column is left for a wide glyph |
| `CookedLayout.FitTextIntoColumns` | src/buffer/out/textBuffer.cpp:422-477 | the two loops compute the specification |
| `CookedLayout.LineBounds` | src/host/readDataCooked.cpp:1297-1393 | every call stays in the line and the input and consumes input or fills the line; a glyph is left out only in the last column |
| `CookedLayout.FreshLineConsumesIff` | src/host/readDataCooked.cpp:1349-1385 | a fresh line consumes input if and only if it does not begin with a control character as wide as the line |
| `CookedLayout.LineShows` | src/host/readDataCooked.cpp:1297-1393 | spaces aside, the line shows exactly what it consumed, less a glyph left out, and a control character that filled it |
| `CookedLayout.AsciiTakesItsColumns` | src/host/readDataCooked.cpp:1297-1393 | of ASCII text nothing is left out and each unit on the line, tabs and carets expanded, takes one column |
| `CookedLayout.LayoutTerminatesIff` | src/host/readDataCooked.cpp:131-142 | from every start column the layout loop ends if and only if no control character is as wide as the lines; always above eight columns |
| `CookedLayout.TabNeverEndsInEightColumns` | src/host/readDataCooked.cpp:1356-1384 | a tab in eight columns is never consumed |
| `CookedLayout.ControlIsLaidOutTwice` | src/host/readDataCooked.cpp:1378-1384 | a control character in the last two columns is laid out again on the next line |
| `CookedLayout.WideGlyphIsLost` | src/host/readDataCooked.cpp:1316-1323 | a wide glyph that begins a run in the last column is dropped |
| `CookedLayout.LayoutLine` | src/host/readDataCooked.cpp:1297-1393 | the nested loops compute the line of the specification |
| `StartColumn.BitTrick` | src/host/readDataCooked.cpp:120-120 | for every attempt that is a coordinate, the expression on two's complement words, exclusive or bit by bit, is the offset the search uses |
| `StartColumn.ZigZagVisitsOnce` | src/host/readDataCooked.cpp:114-126 | every column comes up exactly once among the attempts |
| `StartColumn.EndOfText` | src/host/readDataCooked.cpp:128-142 | the loop ends where the layout ends, with the number of lines completed |
| `StartColumn.FindStartColumn` | src/host/readDataCooked.cpp:95-155 | of all columns the chosen one brings the end of the text nearest to the cursor, and of several the first tried |
| `StartColumn.FindOrigin` | src/host/readDataCooked.cpp:157-175 | the origin is that column as many rows up, or the corner if that is above the viewport |
| `CookedPager.FaithfulShows` | src/host/readDataCooked.cpp:950-969 | a layout without dropped or repeated characters shows, spaces aside, exactly the text |
| `CookedPager.PlainIsFaithfulIff` | src/host/readDataCooked.cpp:1316-1323 | text without control characters is laid out that way if and only if it does not start with a wide glyph in the last column |
| `CookedPager.AllLeadingWideAreLost` | src/host/readDataCooked.cpp:1316-1323 | in the last column all wide glyphs that follow each other are lost, as if the text began behind them |
| `CookedPager.AsciiIsFaithfulIff` | src/host/readDataCooked.cpp:1349-1385 | ASCII text with any control characters is laid out that way if and only if a walk by columns meets none that ends exactly at the right edge and no tab that reaches it |
| `CookedPager.TextIsFaithfulIff` | src/host/readDataCooked.cpp:1297-1393 | any text is laid out that way if and only if the walk by columns, which takes a plain run by its graphemes, meets neither that nor a run that begins with a wide glyph in the last column |
| `CookedPager.LayoutSegment` | src/host/readDataCooked.cpp:950-969 | the loop over one segment ends and gives the rows of the specification |
| `CookedPager.CursorRowIsReal` | src/host/readDataCooked.cpp:930-975 | the cursor's row exists, and the next one too if that one is full and text follows |
| `CookedPager.LayoutHasCursor` | src/host/readDataCooked.cpp:1035-1081 | with popups or a delayed wrap the cursor's row is still real, and without popups its column is inside |
| `CookedPager.PopupStandsBelow` | src/host/readDataCooked.cpp:1007-1039 | popup rows follow those of the text, the cursor is behind the last of them, and the end of the text is not changed by them |
| `CookedPager.LayoutSegments` | src/host/readDataCooked.cpp:930-977 | the three segments give the rows and the cursor of the specification, which `CookedCursor` compares with a walk over the text |
| `CookedPager.PagerScrollsLeast` | src/host/readDataCooked.cpp:1105-1111 | the window lies within the rows, shows the cursor, and is nearest to the old one of all that do |
| `CookedPager.Pager.LayoutFitting` | src/host/readDataCooked.cpp:923-1095 | the layout is retried once, from the left edge, exactly if it outgrows the viewport from another column |
| `CookedPager.Pager.Redisplay` | src/host/readDataCooked.cpp:907-1116 | the layout, and with it the cursor's place in the rows, is the specification's; the pager shows that row inside the viewport, and origin, window and end are as specified |
| `CookedCursor.FaithfulEnds` | src/host/readDataCooked.cpp:950-969 | a layout without dropped or repeated characters ends where a walk over the text, unit by unit, ends |
| `CookedCursor.CursorFollowsText` | src/host/readDataCooked.cpp:930-977 | whatever part of the buffer is dirty, the rows before the cursor end where the walk over the text before it ends, if nothing in them is dropped or repeated |
| `CookedCursor.CursorIsDrawn` | src/host/readDataCooked.cpp:930-1046 | the cursor is drawn there, a delayed wrap carried out; wide glyphs, marks that take no column and control characters included |
| `CookedCursor.FaithfulToIff` | src/host/readDataCooked.cpp:930-969 | nothing before the cursor is dropped or repeated if and only if both segments are sound, the second from where the walk over the first ends |
| `CookedCursor.CleanCursorIsDrawn` | src/host/readDataCooked.cpp:930-1046 | in ASCII text with any control characters, clean up to the cursor, the same for every start of the dirty part |
| `CookedCursor.PrintableCursor` | src/host/readDataCooked.cpp:930-1046 | in printable ASCII text row times width plus column is the start column plus the units before the cursor, for every start of the dirty part |
| `CookedCursor.PromptEndsThere` | src/host/readDataCooked.cpp:977-977 | the end of the prompt is where the walk over the whole text ends, with popups or without |
| `CookedCursor.TypedCursorIff` | src/host/readDataCooked.cpp:930-977 | the cursor behind a unit just typed is drawn where the text ends if and only if the unit is not a wide one that would begin in the last column |
| `CookedCursor.CursorDependsOnDirt` | src/host/readDataCooked.cpp:932-941 | a letter and a wide glyph for which the cursor is drawn at two different places, depending on where the dirty part begins |
| `LineEditing.WordPrevIsLastStart` | src/host/readDataCooked.cpp:391-408 | going back by a word lands on the last word start before the cursor, or at the start |
| `LineEditing.WordNextIsFirstStart` | src/host/readDataCooked.cpp:410-426 | going on by a word lands on the first word start after the cursor, or at the end |
| `LineEditing.ReplaceKeeps` | src/host/readDataCooked.cpp:861-877 | a replacement keeps the text before the dirty part equal to what is on the screen |
| `LineEditing.RedisplayKeeps` | src/host/readDataCooked.cpp:1289-1294 | a redisplay leaves nothing dirty and the screen equal to the state |
| `LineEditing.CharKeeps` | src/host/readDataCooked.cpp:469-531 | every character keeps the invariant |
| `LineEditing.KeyKeeps` | src/host/readDataCooked.cpp:535-730 | every editing key keeps the invariant |
| `LineEditing.PopupKeeps` | src/host/readDataCooked.cpp:1441-1623 | every input to a popup keeps the invariant, the digits within their buffer included |
| `LineEditing.StepKeeps` | src/host/readDataCooked.cpp:429-466 | every input keeps the invariant |
| `LineEditing.RunKeeps` | src/host/readDataCooked.cpp:429-466 | over every sequence of inputs and redisplays the cursor is in the text, the clean part is on the screen, and whatever the screen lacks is marked dirty |
| `LineEditing.RunLeavesOnce` | src/host/readDataCooked.cpp:829-833 | a read that has left accumulating keeps its outcome and its text |
| `LineEditing.ListShowsSelection` | src/host/readDataCooked.cpp:1651-1676 | the command list shows its selection, which is in range, in a window within the history |
| `LineEditing.ListScrollsLeast` | src/host/readDataCooked.cpp:1659-1673 | the list scrolls no further than showing its selection takes, and starts with it in the middle as far as the ends allow |
| `LineEditing.TypeThenEraseIff` | src/host/readDataCooked.cpp:507-530 | typing and erasing gives the text back if and only if the character did not join the grapheme before it |
| `LineEditing.DeleteAfterLeftIff` | src/host/readDataCooked.cpp:624-631 | deleting after going left is erasing backwards if and only if going right would come back |
| `LineEditing.HomeAndEndPartTheText` | src/host/readDataCooked.cpp:548-567 | Ctrl+Home and Ctrl+End keep complementary parts of the text |
| `LineEditing.CopyToOverwrites` | src/host/readDataCooked.cpp:1469-1496 | F2 copies the last command over the text up to the first place of the character and leaves what follows; without such a place the text stays |
| `LineEditing.CopyFromErases` | src/host/readDataCooked.cpp:1498-1516 | F4 erases exactly up to the first place of the character, or to the end |
| `LineEditing.F8KeepsWhatWasTyped` | src/host/readDataCooked.cpp:700-712 | F8 changes neither the text before the cursor nor the cursor |
| `LineEditing.BeyondIsNthGrapheme` | src/host/readDataCooked.cpp:594-618 | going right at the end appends the grapheme of the last command that stands at the same place |
| `GraphemeEditing.MovingKeepsBoundary` | src/host/readDataCooked.cpp:535-659 | for any segmentation whose directions undo each other on boundaries, moving by graphemes or to an end and recalling keep the cursor on a boundary |
| `GraphemeEditing.LeftsThenRights` | src/host/readDataCooked.cpp:568-593 | k steps left, each of which moved, and k right come back |
| `GraphemeEditing.PairwiseIsCoherent` | src/buffer/out/textBuffer.cpp:390-410 | a segmentation decided by neighbouring units has directions that undo each other |
| `GraphemeEditing.MovingStaysOnBoundaries` | src/host/readDataCooked.cpp:429-466 | over every run of such keys the cursor stays on boundaries |
| `GraphemeEditing.PairwiseExists` | src/buffer/out/textBuffer.cpp:390-410 | there is such a segmentation for every table of neighbours |
| `GraphemeEditing.DeleteKeepsBoundaryIff` | src/host/readDataCooked.cpp:624-631 | deleting keeps the cursor on a boundary of the editor's graphemes if and only if those that then meet stay apart |
| `GraphemeEditing.EraseKeepsBoundaryIff` | src/host/readDataCooked.cpp:507-516 | so does erasing backwards |
| `GraphemeEditing.TypeKeepsBoundaryIff` | src/host/readDataCooked.cpp:522-531 | typing does if and only if what follows does not join the character |
| `GraphemeEditing.TypingKeepsBoundaryIff` | src/host/readDataCooked.cpp:522-531 | where units extend whatever stands before them or nothing, typing fails to only in front of a text whose first unit extends |
| `GraphemeEditing.DeleteLeavesBoundary` | src/host/readDataCooked.cpp:624-631 | deleting the letter between a leading Hangul consonant and a vowel leaves the cursor inside the syllable |
| `GraphemeEditing.EditingStaysOnBoundaries` | src/host/readDataCooked.cpp:507-631 | with such units, as in the wcswidth clustering, every run of moving, typing, deleting and erasing keeps the cursor on a boundary, unless something is typed in front of a text whose first unit extends |
| `LineEditing.FedIsRun` | src/host/readDataCooked.cpp:429-466 | feeding inputs up to the end of the read is one of the runs |
| `KeyEffects.UpsGoBack` | src/host/readDataCooked.cpp:632-638 | k times Up or F5 recalls the k-th command back, counting the one last shown if none was recalled since one was added, and stops at the oldest |
| `KeyEffects.UpsFromNewest` | src/host/readDataCooked.cpp:632-638 | with a command just added, k times Up shows the k-th newest and leaves the index there |
| `KeyEffects.DownsGoOn` | src/host/readDataCooked.cpp:639-644 | k times Down recalls the k-th command behind the index and stops at the newest |
| `KeyEffects.PagesGoToEnds` | src/host/readDataCooked.cpp:645-656 | Page Up recalls the oldest command and Page Down the newest, unless it is shown |
| `KeyEffects.UpOnEmptyHistoryIff` | src/host/readDataCooked.cpp:632-638 | without commands, Up leaves the text alone if and only if it is empty or Up was pressed before |
| `KeyEffects.UpErasesTypedText` | src/host/readDataCooked.cpp:632-638 | the first Up with an empty history erases what was typed |
| `KeyEffects.F8RecallsNearest` | src/host/readDataCooked.cpp:700-712 | F8 recalls the nearest command back that begins with the text before the cursor, and going on from there the next time |
| `KeyEffects.F3CopiesTheRest` | src/host/readDataCooked.cpp:663-673 | F3 takes the rest of the line from the last command, if that is longer than the text before the cursor |
| `KeyEffects.TypedLineIsRead` | src/host/readDataCooked.cpp:469-531 | characters typed at the end and Enter are read as typed, inserting or overwriting |
| `KeyEffects.WakeupEndsText` | src/host/readDataCooked.cpp:473-496 | a wakeup character ends the read with the text before the cursor and the character, which is not shown |
| `KeyEffects.EscapeErasesLine` | src/host/readDataCooked.cpp:542-547 | Escape leaves an empty line |
| `KeyEffects.RightAppendsGrapheme` | src/host/readDataCooked.cpp:581-619 | Right at the end appends the grapheme of the last command that stands there |
| `KeyEffects.InsertToggles` | src/host/readDataCooked.cpp:620-623 | Insert changes the mode and nothing else |
| `KeyEffects.F6TypesCtrlZ` | src/host/readDataCooked.cpp:679-682 | F6 is Ctrl+Z |
| `KeyEffects.HomeAndEndMove` | src/host/readDataCooked.cpp:548-567 | without Ctrl, Home and End move the cursor and keep the text |
| `KeyEffects.CtrlLeftGoesToWord` | src/host/readDataCooked.cpp:568-580 | Ctrl+Left goes to the last word start before the cursor |
| `KeyEffects.CtrlRightGoesToWord` | src/host/readDataCooked.cpp:581-590 | Ctrl+Right goes to the first word start behind it |
| `KeyEffects.CtrlBackspaceErasesWord` | src/host/readDataCooked.cpp:507-516 | Ctrl+Backspace erases back to the last word start |
| `KeyEffects.OverwriteIsDeleteAndInsert` | src/host/readDataCooked.cpp:522-531 | overwriting is deleting the grapheme at the cursor and inserting |
| `KeyEffects.EscapeClosesPopups` | src/host/readDataCooked.cpp:1435-1439 | Escape closes all popups and keeps text, cursor and history |
| `KeyEffects.KeysOpenPopups` | src/host/readDataCooked.cpp:657-718 | F2, F4 and F9 open their popups, F9 only with commands to choose from |
| `KeyEffects.AltF7Forgets` | src/host/readDataCooked.cpp:692-698 | Alt+F7 leaves an empty history and keeps the text |
| `KeyEffects.F7OpensList` | src/host/readDataCooked.cpp:683-691 | F7 opens the command list at the command last shown |
| `KeyEffects.PickRecalls` | src/host/readDataCooked.cpp:1582-1586 | Left or Right recalls the selected command, or the nearest there is, and closes the popups |
| `KeyEffects.EnterTakesSelected` | src/host/readDataCooked.cpp:1558-1564 | Enter recalls it and ends the read with it |
| `KeyEffects.MoveAndPick` | src/host/readDataCooked.cpp:1587-1617 | after any moves by one or by a page the command as many places on is recalled, or the nearest there is |
| `KeyEffects.EndsAndPick` | src/host/readDataCooked.cpp:1603-1609 | Home selects the oldest command and End the newest |
| `KeyEffects.ShiftTakesCommandAlong` | src/host/readDataCooked.cpp:1587-1602 | with Shift the selected command changes places with its neighbour and stays selected |
| `KeyEffects.DeleteTakesOut` | src/host/readDataCooked.cpp:1574-1581 | Delete takes the selected command out of the history and closes the list when none is left |
| `KeyEffects.NumberRecalls` | src/host/readDataCooked.cpp:1518-1552 | typing a number of at most five digits and Enter recalls the command of that number, or the newest |
| `KeyEffects.DigitThenBackspace` | src/host/readDataCooked.cpp:1536-1550 | Backspace takes back the last digit |
| `KeyEffects.NoNumberAborts` | src/host/readDataCooked.cpp:1529-1534 | Enter without digits leaves the read by an exception |
| `CookedEditor.WordPrev` | src/host/readDataCooked.cpp:391-408 | the two loops compute the specification |
| `CookedEditor.WordNext` | src/host/readDataCooked.cpp:410-426 | the two loops compute the specification |
| `CookedEditor.Editor.constructor` | src/host/readDataCooked.cpp:164-171 | the initial data counts as shown, with the cursor behind it |
| `CookedEditor.Editor.Replace` | src/host/readDataCooked.cpp:861-877 | text, cursor and dirty start are the specification's; nothing else changes |
| `CookedEditor.Editor.SetCursorPosition` | src/host/readDataCooked.cpp:887-891 | the cursor is clamped to the text |
| `CookedEditor.Editor.TransitionState` | src/host/readDataCooked.cpp:829-833 | its assertion holds at every call |
| `CookedEditor.Editor.HandleChar` | src/host/readDataCooked.cpp:469-531 | the handler is the specification's step |
| `CookedEditor.Editor.HandleVkey` | src/host/readDataCooked.cpp:535-730 | the handler is the specification's step, history included; what the steps do over sequences of keys is stated by `KeyEffects` |
| `CookedEditor.Editor.HandlePopup` | src/host/readDataCooked.cpp:1441-1623 | the handlers are the specification's steps, history included; what they do over sequences of inputs is stated by `KeyEffects` |
| `CookedEditor.Editor.Read` | src/host/readDataCooked.cpp:270-287 | the state is that after exactly the inputs up to the first that ends the read, each handled in turn, and a redisplay, unless an exception left the read |

## Left out

- The Windows calls around the modelled logic: pipes, threads, events, timers, window handles, UI Automation. The
  input event is a boolean; the outcomes of overlapped writes are parameters.
- 32-bit overflow: coordinates, areas and the selection of the command list popup are unbounded integers here. The
  packer's target is below 2^30 in both directions; the waste of a large target may exceed 32 bits in the original.
- `qsort` and `std::sort` are a sort that keeps the multiset; their order among equals is not used.
- InputBuffer.InputBuffer.ConsumeA: code-page conversion is a parameter per unit or pair. The cache for wide text, which
  nothing fills, is not modelled.
- InputQueue.RunDelivers: speaks of writes that do not merge, because a reader that does not split repeats sees a
  merged key as one record; merged writes as stream readers see them are `InputQueue.RunIsSeen`.
- InputBuffer.InputBuffer.Write: translation of keys to VT sequences is a parameter, one answer per event.
- VtWriter.Writer.WriteUtf8: the conversion from UTF-16 and the formatting helpers are not modelled.
- Arguments.GetClientCommandline: the loop that recognises the other options is not modelled.
- GraphemeEditing.EditingStaysOnBoundaries: surrogate pairs are extending units here only if the second half is; the
  full grapheme rules, where what joins depends on more than two units, are covered as far as
  `GraphemeEditing.MovingKeepsBoundary` goes.
- CookedLayout.LayoutLine: graphemes are any segmentation with at least one unit and at most two columns each, asked
  for by position; the segmenter's carried state is not modelled.
- StartColumn.FindStartColumn: requires that no control character is as wide as the lines, because the original does
  not end otherwise; `CookedLayout.LayoutTerminatesIff` says exactly when that is.
- CookedPager.Pager.Redisplay: requires the same; popup rows are given; the sequences sent to the terminal, the spaces
  that erase the tail of an earlier prompt and the dirty columns of rows are not modelled.
- CookedCursor.CursorIsDrawn: columns are those of a table in which a grapheme is as wide as its first unit and its other
  units take none, as for surrogate pairs and combining marks; graphemes of several wide units are not covered. Lines of
  one column are covered for ASCII text.
- CookedEditor.Editor.Read: the layout is kept apart from the editor, whose redisplay only records what is shown; the
  steps after the read, aliases among them, and redrawing after a resize are not modelled. A command number without
  digits throws in the original and ends the read here.
- History.CommandHistory.Add: the list of histories of all clients and their reuse are not modelled; the history is one
  that is in use.
- The interval tree's validity check, brute-force extent and printers are debugging aids.
