# Verified models of the Chromium Embedded Framework

These Dafny modules model the parts of the Chromium Embedded Framework (CEF) repository whose
correctness lies in how several operations work together, and prove what the code or the headers
promise about them. `dafny verify dfyconfig.toml` checks everything. Proofs by induction are written
out; none rests on automatic induction.

| file | what it models |
|---|---|
| `RefCounting.dfy` | `CefRefCount`, `IMPLEMENT_REFCOUNTING` and `scoped_refptr` as steps of any number of threads. A step is enabled by what its thread possesses; nothing in a step checks that the object still exists, and touching a deleted one leads to a world `Fault`. |
| `Cascade.dfy` | The `delete` inside `Release`: the ownership graph, the recursive `Release` of the code as methods on a heap, and the same deletions spread over threads in any order. |
| `Transfer.dfy` | `CefString` order, and `std::map` / `std::multimap` insertion as functions on sorted sequences. |
| `TransferUtil.dfy` | The six loops of `transfer_util.cc` on mutable containers, with one scratch string object per loop. |
| `ResponseFilter.dfy` | The call protocol of `CefResponseFilter::Filter`, for every filter, every way of cutting the response and every sequence of buffer sizes. |
| `FindReplace.dfy`, `FindReplaceFilter.dfy` | `FindReplaceResponseFilter` of the sample client: the class over byte buffers, and exactly when a response comes out as its comment says. |
| `PassThru.dfy` | `PassThruResponseFilter`, and the smallest buffering filter that meets the contract. |
| `StreamResource.dfy` | The producer side: `CefStreamResourceHandler` and the loop that calls `ReadResponse`. |
| `LifeSpan.dfy` | Creation and closing of browsers: a state machine over any number of browsers, popups and cancelled closes, with a log of notifications. |
| `Creation.dfy` | How browsers and popups are created, the fate of a popup, what each step records and what it leaves alone. |
| `Closing.dfy` | What a forced or unforced request, the user's answer, `DoClose` and the loss of the window do to a close. |
| `SimpleHandler.dfy` | `SimpleHandler` of the sample application, driven by the notifications of any run of that state machine. |
| `Locking.dfy` | The locking example of `cef_base.h`. |
| `Sizes.dfy` | `std::min`. |

## Where code and documentation part

* The comment on `FindReplaceResponseFilter` says that it replaces all instances of the find string.
  It does so exactly on inputs that are `Clean`: when a partial match fails, the scan restarts after
  the mismatching character, so an instance that starts inside the abandoned attempt is missed
  (`FindReplaceScan.ReplacesAllIffClean`, `FindReplaceScan.MissedInstance`).
* The same filter returns Done whenever no match is in progress, even with text in its overflow, and
  NeedMoreData while it holds back a partial match, even with no output pending
  (`FindReplaceFilter.StatusIsHonestIff`). Under the stop conditions of the header neither text need
  be asked for. `FindReplaceFilter.DeliversReplaceAllIff` gives the exact condition under which a
  whole response is delivered as intended.
* `PassThruResponseFilter` claims all input as read and drops what does not fit the output buffer
  (`PassThru.UnchangedIffChunksFit`, `PassThru.DroppedByte`).
* Reference counting frees exactly what is unreachable only if the ownership graph has no
  unreachable cycle; what an unreachable cycle owns its way to stays (`Cascade.LeakedIffBehindCycle`,
  `Cascade.SelfOwnerLeaks`).
* Step 8 of Example 2 in `cef_life_span_handler.h` refers to "the flag from #6B"; the flag is set in
  6A, which is what the model does.
* "After the close has completed" in the description of `TryCloseBrowser` is read as in steps 6 and 7
  of Example 1: `DoClose` has returned false. What a `DoClose` that returned true leaves behind is
  not specified; the model goes back to a browser that is not closing.

## Model

| member | source | states |
|---|---|---|
| RefCounting.NoUseAfterDelete | include/cef_base.h:128-135 | A step that its thread may take touches only objects that exist; none is reached after its deletion. |
| RefCounting.HoldersMay | include/base/cef_ref_counted.h:297-357 | A thread may create any new object, and copy, exchange, store, take out and drop whatever it holds or finds in an object it holds. |
| RefCounting.TouchedIsComplete | include/cef_base.h:98-135 | A step changes the count and the fields of no object, and copies from no field of an object, except those it is said to touch. |
| RefCounting.StepKeepsInv | include/cef_base.h:91-142 | Every step of every thread keeps: no dangling pointer, the count of each object is the number of pointers to it, and each object with count zero waits for exactly one creator or deleter. |
| RefCounting.EveryRunIsSafe | include/cef_base.h:91-142 | In every interleaving no step touches a deleted object, the stored count is AddRefs minus Releases and the number of pointers, and a deleted object was deleted once after exactly one Release that returned true. |
| RefCounting.RunFromStart | include/cef_base.h:98-135 | The same from an empty world, and: an object that was referenced and has no pointer left has been deleted, or its one Release that returned true is about to delete it. |
| RefCounting.AnyNumberOfThreadsShare | libcef_dll/wrapper/cef_stream_resource_handler.cc:158-160 | From the empty world any number of threads come to hold any one object, by pointers bound into tasks for them, so that all results about runs cover contended counts. |
| RefCounting.OneRefIsSoleHolder | include/cef_base.h:66-69 | HasOneRef is true for a holder if and only if its pointer is the only one. |
| RefCounting.HasOneRefIsStable | include/cef_base.h:108-108 | A holder that saw HasOneRef true stays the only holder, with count one, through any steps of other threads. |
| RefCounting.SelfAssignment | include/base/cef_ref_counted.h:329-338 | Self-assignment leaves the world as it was because AddRef comes first; releasing first would doom an object that has one reference. |
| Cascade.MoveInOwns | libcef_dll/wrapper/cef_stream_resource_handler.cc:72-87 | Storing a pointer in an object makes that object, and no other, an owner of the target; every holder of the object can use the field. |
| Cascade.MoveOutOwns | include/base/cef_ref_counted.h:349-355 | Taking a pointer out of an object ends that ownership only, and the thread holds the target. |
| Cascade.MoveInAndOut | include/base/cef_ref_counted.h:349-355 | Storing a pointer and taking it out again is the identity. |
| Cascade.CopyHolds | include/base/cef_ref_counted.h:297-311 | A first reference or a copy changes no field, and makes just its receiver a holder of just its target. |
| Cascade.LeakedIffBehindCycle | include/cef_base.h:126-135 | Which objects leak: with no release under way, an object is alive though no thread reaches it if and only if an object on an ownership cycle owns its way to it. |
| Cascade.LeakIffUnreachableCycle | include/cef_base.h:126-135 | With no release under way, some object is out of reach but alive if and only if some ownership cycle is out of reach. |
| Cascade.SelfOwnerLeaks | include/cef_base.h:126-135 | A run after which an object that holds a pointer to itself is leaked. |
| Cascade.RootedIsAlive | include/cef_base.h:126-135 | Whatever a thread can reach has not been deleted. |
| Cascade.CleanupIsBounded | include/cef_base.h:128-135 | Releases and deletions, in any order by any threads, cannot go on for more steps than there are pointers and objects. |
| Cascade.CleanupCanGoOn | include/cef_base.h:128-135 | While a deletion or a release it owes is unfinished, whatever else goes on, some thread can take its next step. |
| Cascade.SurvivorsAreTheRooted | include/cef_base.h:126-135 | On an acyclic ownership graph, once no release is under way the objects left are exactly those a thread can reach. |
| Cascade.SurvivorsAreTheKept | include/cef_base.h:126-135 | On any ownership graph, if no support was taken away, the objects left are exactly those that a thread or an ownership cycle reaches. |
| Cascade.EveryScheduleFreesTheSame | include/cef_base.h:126-135 | Concurrent cascades on any ownership graph: every schedule of the due releases and deletions ends with the same objects, counts and pointers, the objects being those that a thread or an ownership cycle reached at the start; without cycles, those a thread reached. |
| Cascade.RefHeap.AddRef | include/cef_base.h:98-98 | One count goes up by one, nothing else changes. |
| Cascade.RefHeap.Decrement | include/cef_base.h:103-103 | One count goes down by one; the result says whether it is zero. |
| Cascade.RefHeap.HasOneRef | include/cef_base.h:108-108 | True if and only if there is exactly one pointer to the object. |
| Cascade.RefHeap.HasAtLeastOneRef | include/cef_base.h:113-115 | True if and only if there is a pointer to the object. |
| Cascade.RefHeap.CopyPointer | include/base/cef_ref_counted.h:302-305 | Copying a pointer, for the thread itself or for a task of another, does the atomic step Copy and keeps the invariant. |
| Cascade.RefHeap.SwapPointers | include/base/cef_ref_counted.h:349-355 | Each of the two pointers gets the target of the other, owners, counts and all other pointers stay, and the invariant is kept. |
| Cascade.RefHeap.Assign | include/base/cef_ref_counted.h:329-342 | dst holds the target of src, for locals and fields and also if src was reached through dst; everything else is as before except the fields of objects that this released. |
| Cascade.RefHeap.ReleasePointer | include/cef_base.h:129-135 | Releasing one pointer, with the whole cascade: it returns true if and only if its target is deleted, the deleted objects are those missing from the heap, the pointers left are those not inside a deleted object, and no set of objects that keep each other alive loses its support. |
| Cascade.RefHeap.DeleteObject | include/cef_base.h:131-131 | Deleting an object releases each of its fields once, in any order, recursively. |
| Cascade.DropAndCollect | include/cef_base.h:126-135 | Dropping a pointer terminates and leaves exactly the objects that a thread or an ownership cycle still reaches, on an acyclic graph exactly those a thread reaches, each with count = roots + incoming fields; it returns true if and only if the target is not among them. |
| CefStrings.LessIsTransitive | include/internal/cef_string_wrappers.h:399-406 | The order of CefString keys is transitive. |
| CefStrings.LessIsLexicographic | include/internal/cef_string_types.h:111-119 | The order is that of strcmp: at the first difference the smaller code unit decides, and a string precedes its extensions. |
| CefStrings.LessIsTotal | include/internal/cef_string_wrappers.h:633-643 | Of two keys exactly one is less, or they are equal: a strict total order, as map and multimap need. |
| Containers.MultiInsertKeepsSorted | libcef_dll/transfer_util.cc:53-53 | Insertion keeps a multimap sorted by key. |
| Containers.MultiInsertAppendsValue | libcef_dll/transfer_util.cc:53-53 | The new value comes last among those of its key; no other key changes. |
| Containers.TransferMultimap | libcef_dll/transfer_util.cc:44-55 | After the transfer each key lists its old values followed by the transferred ones in their order, and the keys are sorted. |
| Containers.TransferIsPermutation | libcef_dll/transfer_util.cc:44-55 | The transfer loses and invents no entry. |
| Containers.StableSortIsUnique | libcef_dll/transfer_util.cc:44-55 | Sortedness and the order of values under each key determine the sequence: the transfer into an empty multimap is the stable sort. |
| Containers.MultimapRoundTrip | libcef_dll/transfer_util.cc:44-64 | Out and back into an empty multimap is the identity, order among equal keys included. |
| Containers.MultiInsertAllAppend | libcef_dll/transfer_util.cc:44-55 | Transferring A then B is transferring A followed by B. |
| Containers.MapInsertKeepsSorted | libcef_dll/transfer_util.cc:33-33 | Insertion keeps the keys of a map strictly increasing. |
| Containers.MapInsertKeepsFirst | libcef_dll/transfer_util.cc:33-33 | Insertion never overwrites; an absent key gets the value. |
| Containers.TransferMap | libcef_dll/transfer_util.cc:25-35 | Left-biased union: existing entries win, then the first of duplicate source keys. |
| Containers.MapTransferIdempotent | libcef_dll/transfer_util.cc:25-35 | Transferring the same source again changes nothing. |
| Containers.MapInsertAllAppend | libcef_dll/transfer_util.cc:25-35 | Transferring A then B is transferring A followed by B. |
| Containers.MapRoundTrip | libcef_dll/transfer_util.cc:25-42 | Out and back into an empty map is the identity. |
| TransferUtil.ListIn | libcef_dll/transfer_util.cc:7-16 | The list becomes the old list followed by the source, and although the loop overwrites one string object no stored element changes. |
| TransferUtil.ListOut | libcef_dll/transfer_util.cc:18-23 | The C list becomes the old list followed by the source. |
| TransferUtil.MapIn | libcef_dll/transfer_util.cc:25-35 | The loop computes the left-biased union of TransferMap. |
| TransferUtil.MapOut | libcef_dll/transfer_util.cc:37-42 | The entries are appended to the C map in key order. |
| TransferUtil.MultimapIn | libcef_dll/transfer_util.cc:44-55 | The loop computes the stable merge of TransferMultimap. |
| TransferUtil.MultimapOut | libcef_dll/transfer_util.cc:57-64 | The entries are appended to the C multimap in iteration order. |
| TransferUtil.ListRoundTrip | libcef_dll/transfer_util.cc:7-23 | A list sent out and back has the same contents. |
| TransferUtil.MapCopy | libcef_dll/transfer_util.cc:25-42 | A map sent out and back is the same map. |
| TransferUtil.MultimapCopy | libcef_dll/transfer_util.cc:44-64 | A multimap sent out and back is the same multimap. |
| ResponseFilter.Conservation | include/cef_response_filter.h:62-78 | In every run without error the input is taken in order and to its end, and output delivered plus output owed is what the input taken gives rise to. |
| ResponseFilter.NothingOwed | include/cef_response_filter.h:69-85 | A filter that, while it owes output, fills the buffer and returns NeedMoreData owes nothing when the calls stop. |
| ResponseFilter.DeliveredIffNothingOwed | include/cef_response_filter.h:72-85 | For every filter that obeys A and B and accounts for its output, a complete run delivers all output if and only if its last state owes nothing. |
| ResponseFilter.AllDelivered | include/cef_response_filter.h:59-88 | Such a filter, if it obeys A and B and accounts for its output, has all input read and all output delivered, in order and once. |
| ResponseFilter.ChunkingIndependence | include/cef_response_filter.h:59-88 | The bytes such a filter delivers do not depend on how the input is cut or on the buffer sizes. |
| ResponseFilter.CallMakesProgress | include/cef_response_filter.h:65-68 | By rule B every call after which the calls go on lowers input left plus output to come. |
| ResponseFilter.RunsAreBounded | include/cef_response_filter.h:72-85 | No run has more calls than bytes to read and bytes to write, plus one. |
| ResponseFilter.Drive | include/cef_response_filter.h:72-85 | The caller's loop terminates for every filter that obeys A and B and accounts for its output; its calls are a complete run of the protocol with the given buffer sizes, it goes on or stops as told where the header leaves that open, and its output is what that run delivers. |
| FindReplaceScan.EmitAppend | tests/cefclient/browser/response_filter_test.cc:94-121 | Scanning two pieces one after the other is scanning the whole: the state kept between calls suffices. |
| FindReplaceScan.DecimalReadsBack | tests/cefclient/browser/response_filter_test.cc:99-100 | The digits written for a number denote that number and have no leading zero. |
| FindReplaceScan.MatchIsNumbered | tests/cefclient/browser/response_filter_test.cc:97-105 | After n matches the text "REPLACE_THIS_STRING" is replaced by the number n + 1 in decimal notation followed by ". This is the replaced string!", and the scan starts over. |
| FindReplaceScan.ReplacesAllIffClean | tests/cefclient/browser/response_filter_test.cc:28-31 | The scan replaces all instances, left to right, if and only if no instance starts inside an abandoned attempt. |
| FindReplaceScan.PrefixMeansClean | tests/cefclient/browser/response_filter_test.cc:94-121 | On any other input what the scan writes does not even begin with the intended text. |
| FindReplaceScan.MissedInstance | tests/cefclient/browser/response_filter_test.cc:110-117 | A concrete input: an instance right after a stray 'R' is not replaced. |
| FindReplaceFilter.FindReplaceResponseFilter.constructor | tests/cefclient/browser/response_filter_test.cc:34-37 | A new filter has matched, replaced and stored nothing. |
| FindReplaceFilter.FindReplaceResponseFilter.Write | tests/cefclient/browser/response_filter_test.cc:130-157 | As much as fits goes to the buffer, the rest to the overflow: buffer and overflow together grow by exactly the text. |
| FindReplaceFilter.FindReplaceResponseFilter.Evaluate | tests/cefclient/browser/response_filter_test.cc:94-121 | One character: buffer and overflow together grow by what the scan writes for it. |
| FindReplaceFilter.FindReplaceResponseFilter.Filter | tests/cefclient/browser/response_filter_test.cc:52-127 | The call over arrays returns and leaves what FilterCall says: all input read, the text split at the buffer's end, the status by the match in progress. |
| FindReplaceFilter.ObeysContract | include/cef_response_filter.h:62-68 | The filter obeys A and B and neither loses nor invents output. |
| FindReplaceFilter.StatusIsNotHonest | tests/cefclient/browser/response_filter_test.cc:123-126 | It breaks C both ways, on concrete inputs: Done with output pending, and NeedMoreData with none pending. |
| FindReplaceFilter.StatusIsHonestIff | tests/cefclient/browser/response_filter_test.cc:123-126 | The status of a call obeys C if and only if a match is in progress exactly when the buffer has no room for overflow and new text; pending output fails to be asked for if and only if no match is in progress and there is no room. |
| FindReplaceFilter.BacklogIsWorstSuffix | tests/cefclient/browser/response_filter_test.cc:86-89 | What is left over after given calls is at most k if and only if, from every call on, additions exceed the room by at most k. |
| FindReplaceFilter.FinalOverflow | tests/cefclient/browser/response_filter_test.cc:123-157 | If no match is in progress at the end, the calls stop with the last chunk and the overflow holds the backlog. |
| FindReplaceFilter.DeliveredAndLost | tests/cefclient/browser/response_filter_test.cc:52-157 | Delivered text, overflow left behind and unfinished match make up exactly what the scan writes for the whole response. |
| FindReplaceFilter.DeliversReplaceAllIff | tests/cefclient/browser/response_filter_test.cc:28-127 | For all chunks and buffer sizes: the delivered response has all instances replaced and nothing missing if and only if the input is clean, does not end inside a match, and from every call on the buffers have room for what is still to be written. |
| PassThru.UnchangedIffChunksFit | tests/cefclient/browser/response_filter_test.cc:174-202 | The response passes unchanged if and only if no chunk exceeds its output buffer. |
| PassThru.DroppedByte | tests/cefclient/browser/response_filter_test.cc:193-201 | A concrete run: of two bytes in one chunk, both read, a buffer of one delivers one. |
| PassThru.BufferedDeliversAll | include/cef_response_filter.h:62-78 | Keeping what does not fit and asking to be called again meets A, B and C and delivers the whole response. |
| StreamResource.StreamReader.Read | include/cef_stream.h:108-112 | Some bytes, in order, into the given range; zero only at the end. |
| StreamResource.ReadFully | libcef_dll/wrapper/cef_stream_resource_handler.cc:164-175 | The direct read delivers the next bytes of the stream, nothing lost or repeated, until the buffer is full or the stream has ended. |
| StreamResource.Buffer.Reset | libcef_dll/wrapper/cef_stream_resource_handler.cc:23-32 | An empty buffer with room for the request. |
| StreamResource.Buffer.WriteTo | libcef_dll/wrapper/cef_stream_resource_handler.cc:38-46 | The bytes handed out and the bytes left are the bytes that were there. |
| StreamResource.Buffer.ReadFrom | libcef_dll/wrapper/cef_stream_resource_handler.cc:48-60 | The buffer takes the next bytes of the stream, and is less than full only at the end. |
| StreamResource.StreamResourceHandler.ReadResponse | libcef_dll/wrapper/cef_stream_resource_handler.cc:132-177 | Bytes handed out plus rest is the old rest; a direct answer is short only at the end of the stream, an answer from the buffer has all that is there or was asked for; false only when all has been handed out; zero bytes and true exactly when the file thread is to read, which never happens while the buffer can answer. |
| StreamResource.StreamResourceHandler.ReadOnFileThread | libcef_dll/wrapper/cef_stream_resource_handler.cc:181-198 | The deferred read loses nothing, buffers as much as was asked for or is left, and leaves a buffer from which the next call answers. |
| StreamResource.Round | include/cef_resource_handler.h:86-92 | A call with its deferred read: the chunk is the next piece of the stream, false means the end, an empty chunk is followed by an answer. |
| StreamResource.Serve | include/cef_resource_handler.h:66-71 | For any mix of immediate, deferred and final calls of any size the loop ends having delivered the whole stream, or exactly its first response_length bytes if that is positive and smaller. |
| LifeSpan.UnbrokenLog | include/cef_life_span_handler.h:93-98 | In a log that is not broken OnAfterCreated is the first and OnBeforeClose the last notification that refers to a browser. |
| LifeSpan.ClosedIff | include/cef_browser.h:333-342 | The progress read off a log is Closed if and only if unload was approved, DoClose later returned false, and nothing was cancelled since. |
| LifeSpan.StepKeepsInv | include/cef_life_span_handler.h:56-199 | Every step keeps the log of each browser, its close state, its window and the application's list in agreement. |
| LifeSpan.NotificationsAreOrdered | include/cef_life_span_handler.h:93-98 | In every run OnAfterCreated comes first and OnBeforeClose last among the notifications that refer to a browser, and all others, DoClose included, lie between. |
| LifeSpan.TryCloseIsExact | include/cef_browser.h:333-342 | A call of TryCloseBrowser, from the window or from anywhere else and for any browser, returns true if and only if unload was approved and DoClose then returned false, however often the user cancelled before. |
| LifeSpan.WindowSurvivesPendingClose | include/cef_life_span_handler.h:138-181 | With the handling of Example 1 or 2 the top-level window is destroyed only after unload was approved and DoClose returned false, in Example 1 right after TryCloseBrowser returned true. |
| LifeSpan.ExitsLast | include/cef_life_span_handler.h:130-133 | When the application has quit, OnBeforeClose has run for every browser that was created, every popup is closed or cancelled, and nothing more can happen. |
| LifeSpan.ExitsWhenNoneLeft | include/cef_life_span_handler.h:159-160 | Once a browser has been closed, the application has quit if and only if no browser is open. |
| Creation.StepsAreRecorded | include/cef_life_span_handler.h:56-199 | The log gains exactly the notifications, answers and losses of a window that belong to the step, in order. |
| Creation.WindowCloseIsRecorded | include/cef_life_span_handler.h:141-181 | The window is gone after a close notification if and only if the application let it go: TryCloseBrowser returned true, its flag was set, or its own choice. |
| Creation.OthersAreLeftAlone | include/cef_life_span_handler.h:74-76 | A step on one browser changes no other, except that the end of a browser cancels the popups that it requested and that are not created yet. |
| Creation.RunGrows | include/cef_life_span_handler.h:66-70 | In every run nothing leaves the log and each browser keeps its handling and windowing. |
| Creation.CreatedAsAsked | include/cef_life_span_handler.h:93-98 | A created browser has the handling and windowing asked for, for ever, and its OnAfterCreated is logged. |
| Creation.AnyBrowsersCanBeOpen | include/cef_life_span_handler.h:130-133 | Any number of browsers of any kinds can be open at once. |
| Creation.FateOfAPopup | include/cef_life_span_handler.h:66-76 | Over every run: a popup that OnBeforePopup cancelled is never created; an allowed one can be created if and only if it was not and its parent has not been closed, with the handling and windowing asked for, and is cancelled if and only if its parent was closed first. |
| Creation.FinishedPopup | include/cef_life_span_handler.h:74-76 | A popup that is created is open, listed and announced by OnAfterCreated, with no close asked for. |
| Closing.OpenBrowsersRespond | include/cef_life_span_handler.h:100-106 | An open browser can be asked to close in any way and ask for any new popup, and close notifications reach its window while it has one. |
| Closing.ForcedCloseSkipsTheQuestion | include/cef_browser.h:320-331 | After a forced request no answer is asked for; DoClose is next unless it has been called or the host window is gone. |
| Closing.UnforcedCloseAsks | include/cef_browser.h:320-331 | After an unforced request the user is asked; approval leads to DoClose, refusal to the state before. |
| Closing.RequestDuringClose | include/cef_browser.h:333-336 | While a close is under way an unforced request changes nothing. |
| Closing.TryCloseStartsAClose | include/cef_browser.h:333-342 | TryCloseBrowser does to the browser what CloseBrowser(false) does. |
| Closing.DoCloseDecides | include/cef_life_span_handler.h:115-128 | DoClose returning false completes the close of a windowed browser and destroys a windowless one at once; true stops it and is left to applications with a handling of their own. |
| Closing.TearDownTakesTheWindow | include/cef_life_span_handler.h:119-122 | After its window is torn down a browser can only be destroyed: no DoClose, no close notification. |
| Closing.NoDoCloseWithoutWindow | include/cef_life_span_handler.h:119-122 | In every run neither DoClose nor another loss of the window follows the loss of a browser's window. |
| LifeSpan.CanAlwaysClose | include/cef_life_span_handler.h:100-134 | From every reachable world, whatever was asked, cancelled or approved and however the application handles it, every open browser can be closed without touching the others. |
| LifeSpan.CanAlwaysExit | include/cef_life_span_handler.h:130-133 | After every run in which a browser was created the application can be brought to exit. |
| LifeSpan.CloseStepsWork | include/cef_life_span_handler.h:141-160 | The steps of the examples can be taken and close the browser, also if a close was asked for before. |
| LifeSpan.ClosesAfterCancels | include/cef_life_span_handler.h:138-186 | With standard handling, while the user can still cancel: after any number of cancelled attempts the steps of the examples still close the browser, remove just that browser and trigger the exit rule. |
| SimpleHandlers.SimpleHandler.OnAfterCreated | cef_win64/tests/cefsimple/simple_handler.cc:57-62 | The browser is added at the end of the list. |
| SimpleHandlers.SimpleHandler.DoClose | cef_win64/tests/cefsimple/simple_handler.cc:64-78 | The close is allowed; the flag is set when the last browser closes. |
| SimpleHandlers.SimpleHandler.OnBeforeClose | cef_win64/tests/cefsimple/simple_handler.cc:80-96 | The first entry for the browser is erased and the message loop quits if the list is empty. |
| SimpleHandlers.SimpleHandler.Notify | cef_win64/tests/cefsimple/simple_handler.cc:57-96 | One notification: the list, the quit request and the closing flag change as the three callbacks say, and by no other notification. |
| SimpleHandlers.RunFollows | cef_win64/tests/cefsimple/simple_handler.cc:57-96 | In every run the application's list and its exit are functions of the notifications so far. |
| SimpleHandlers.HandleRun | cef_win64/tests/cefsimple/simple_handler.cc:57-96 | Given the notifications of any run, the handler lists exactly the open browsers, has asked to quit if and only if the application of that run has exited, and then every created browser has been closed; its flag is set if and only if DoClose was called for an only browser. |
| Locking.StepKeepsInv | include/cef_base.h:170-192 | Every step keeps: one thread at most inside, a loaded value is current, and the counter equals completed calls plus the call that has stored. |
| Locking.MutualExclusion | include/cef_base.h:177-192 | The same for every run of any number of threads. |
| Locking.CounterIsExact | include/cef_base.h:152-175 | In every run two threads are never inside together; with nobody inside, the counter is the number of completed calls and acquires equal releases for each thread. |
| Locking.WaitsOnlyForTheHolder | include/cef_base.h:181-189 | A thread outside can acquire the lock if and only if nobody is inside, and a thread inside can always take its next step. |
| Locking.CallsGetThrough | include/cef_base.h:170-175 | Any sequence of calls by any threads can be made, and each raises the counter by one. |
| Locking.ReleasesAreCompletedCalls | include/cef_base.h:181-189 | Each thread has released the lock once for each call it has completed. |
| Locking.LostUpdate | include/cef_base.h:170-175 | Without the lock two calls can leave the counter at one. |

## Left out

- Memory order: steps are sequentially consistent atomic read-modify-writes, `base::Lock` is a non-recursive mutex.
- Integer width: counts, sizes and `replace_count_` are unbounded integers, so wrap-around of a 32-bit count or of `size_t` is not modelled.
- Addresses: a deleted object's address is not used again.
- Pointers: NULL `scoped_refptr` values are absent variables. Fields are read and written in whole steps, as if the program synchronised them; the counts themselves need no such help.
- Cascade.RefHeap.ReleasePointer: one thread performs the whole cascade without interruption; interleaved cascades are covered by the action level (Cascade.EveryScheduleFreesTheSame).
- Containers: the tree inside std::map and std::multimap, allocation failure, and the bodies of the C containers, which append as their headers say and hand back copies. The body of `cef_string_utf16_cmp` is not part of this model; the header promises the results of strcmp, here by code unit. A NULL struct for an empty CefString is the empty string.
- TransferUtil.MapIn: entries are stored as values, so the aliasing argument about the scratch strings is made for the list only; `std::make_pair` copies both strings.
- Filters: InitFilter, `overflow_.reserve` and `replace_overflow_size_`, which affect allocation only; bytes are Dafny characters.
- Filter protocol: chunks of a response are not empty (an empty response is one call with no input); where the header leaves a further call open (all input read, output written, NeedMoreData, buffer not filled) the caller decides.
- Streams: the caller of ReadResponse is not part of the repository; the header does not say what it does with bytes beyond a positive response length, and the model does not deliver them. `MayBlock` is a constructor argument, the file thread's read happens between two calls, `Cancel`, headers other than the response length, redirects and cookies are absent.
- Life span: windows, dialogs, focus and the JavaScript events themselves; `DoClose` of a browser whose window is gone is not called, as the header says; that a close eventually happens is a matter of the user, so its possibility is proved, from every reachable world.
- LifeSpan.CloseStepsWork: for the two standard ways of handling windowed browsers; other browsers are covered by LifeSpan.CanAlwaysClose, in which applications with a handling of their own choose to let the window close.
- Generated wrappers (`libcef_dll/cpptoc`, `libcef_dll/ctocpp`), the message router, menus, parsers, servers and V8: declarations or mechanical glue, or contracts too open to add to the results above.
