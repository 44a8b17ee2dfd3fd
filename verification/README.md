# Verified models of six programs of the userland components

This Dafny project models the algorithms and protocols of six programs that
the build tree carries in source form, and proves what they are for.

- **dispswitch** (`CrtcSearch.dfy`, `Layout.dfy`, `Commit.dfy`, records in
  `Display.dfy`). The backtracking search that gives every enabled output a
  CRTC is proved maximal among all valid assignments, independent of what the
  later outputs held before. The layout solver places every output where its
  relations say, up to one translation to the origin, whenever no output is
  relative to itself. The commit to the X server keeps every enabled CRTC inside
  the screen at each request up to success or panic, and the exact outcome of
  the revert after a panic is stated; the tail of `do_switch` is proved as one
  method on top of the three.
- **event_rpcgen** (`RpcWire.dfy`, `RpcTheorems.dfy`, `RpcCode.dfy`,
  `RpcStruct.dfy`). The meaning of the emitted C code, for every schema: which
  frame sequences it accepts, that reading undoes writing at any depth of
  nesting, complete or not, that only the order within a tag matters, that
  assignment copies, and how generated arrays grow. `RpcCode` has the emitted functions as programs
  over a buffer, proved against the specification in `RpcWire`.
- **libdga synchronization** (`WindowSync.dfy`, `PixmapSync.dfy`). The client's
  update loop against a server that may change the shared page whenever a
  refresh drops the lock. After a lock the client is in step, and what it has
  been told is just what differs from what it was told before. Pixmap counters
  are 32 bits wide.
- **libdga colormaps, lists and flips** (`SharedColormap.dfy`, `GrabList.dfy`,
  `WindowList.dfy`, `FlipPacing.dfy`). The packed shadow refines three plain
  maps; grabs, failing or not, keep every reference count equal to what is held;
  the window list's purge ends; flips keep their distance across counter wraps.
- **cmap_compact** (`CellPool.dfy`, `Cmc.dfy`). The halving allocator obtains
  exactly the free cells, the fatal error of `cmc_alloc` cannot be reached, and
  `cmc_record` writes down exactly the workspace colors.
- **installalias** (`AliasLanguage.dfy`, `AliasLexer.dfy`). The lexer with its
  growable buffer computes the token of a pure specification; the line written
  for a pair reads back as that pair exactly when the pair avoids what the
  writer does not escape.

`Machine.dfy` has bytes, C strings, 32-bit words and powers of two.

What the environment does is a parameter or a small contract. The X server of
`Commit` answers the n-th CRTC request with `accepts(n)`; that of `WindowSync`
has a plan of what it will do in each gap; `CellPool` carries out the colormap
requests of section 9 of the X Window System Protocol, X Version 11; system
calls of a grab turn out as a `World` says; `memory` and `limit` arguments stand
for allocation; the evtag byte encoding is a `Codec` whose decoders undo its
encoders.

Some promises hold only under a condition. Where the program fails one, a lemma
or a run shows it, and the condition is stated exactly:

- `set_positions` leaves its loop normally exactly when no unplaced output is,
  through its relatives, relative to itself (`Layout.FinishesIffAcyclic`). With
  such a cycle it takes the fatal exit in its first round or runs for ever
  (`Layout.FatalAtOnce`, `Layout.RunsForEver`): outputs already placed set
  `any_set` again in every round. Its only caller, `do_switch`, never builds a
  cycle (`Commit.Wire`).
- `dgai_win_update` tests for a retired window only at the top of its loop. A
  retirement goes unnoticed exactly when it lies in the gaps of the last round
  (`WindowSync.MissedInLastRound`); the master counts are equal then, and later
  locks take the fast path (`WindowSync.RetirementMissed` is such a run).
- `revert` ignores the server's answers. It resizes the screen with every CRTC
  off exactly when each one that was on obeys, and is safe exactly when whatever
  stays lit, and every old configuration accepted, fits the old size
  (`Commit.Revert`; `Commit.RefusedDisable` is a run that does neither).
- The recorded valid range of a colormap always covers the cells just written,
  but loses the end of the earlier range exactly when a write begins before it
  and stops short of its end (`SharedColormap.ExtendCovers`; a run:
  `SharedColormap.PutLosesEnd`).
- An unset required integer or byte block is marshalled like a set one, so the
  receiver takes an incomplete message for a complete one. What arrives is what
  the message says exactly when it is complete (`RpcTheorems.SentIffComplete`;
  an example: `RpcTheorems.IncompleteArrives`).
- The alias writer does not escape. `AliasLanguage.Writable` is the exact set of
  pairs that survive (`AliasLanguage.QuoteIsLost` is a file that does not).
- An alias file whose font name has 1024 bytes or more overruns the buffer it is
  copied to, and exactly such a file does (`AliasLexer.Lexer.Rewrite`;
  `AliasLanguage.LongFontDoesNotFit` is one).
- The wait before a flip compares 32-bit words and never ends early. That it
  ends at all depends on how many retraces one call of the retrace function can
  see: it always does exactly if that is at most 2^32 less the interval
  (`FlipPacing.AllEndIff`; waits that never end: `FlipPacing.SlippingNeverEnds`,
  `FlipPacing.WholeTurnsNeverEnd`).
- Two outputs put side by side may show the same picture. They do exactly when
  they are given one CRTC (`Commit.SideIsShown`), and for two outputs alone that
  is so exactly under `CrtcSearch.WillShare`, a condition on their CRTC and clone
  lists (`Commit.Switch`; a run: `Commit.MirroredSideBySide`).

Two more conditions are sufficient. Equal 32-bit master counts of a pixmap mean
no change as long as fewer than 2^32 changes pass between two locks. With at
most 1000 enabled outputs the score orders assignments first by outputs lit and
then by CRTCs kept.

Run `dafny verify dfyconfig.toml` to check everything.

## Model

| member | source | states |
|---|---|---|
| CrtcSearch.CheckCrtcForOutput | components/x11/dispswitch/src/dispswitch.c:813-859 | true exactly when the output can clone every other connected, enabled output on that CRTC, and the CRTC, if it already drives an enabled output, is set up as this output wants it |
| CrtcSearch.FindCrtcForOutput | components/x11/dispswitch/src/dispswitch.c:861-877 | the CRTC found is one of the output's own that passes the clone half of the check, and no earlier one passes; none is found exactly when none passes |
| CrtcSearch.BestValid | components/x11/dispswitch/src/dispswitch.c:1031-1091 | whatever prefix is fixed, the completion the search settles on respects the one-way clone relation for every output after the prefix |
| CrtcSearch.BestMaximal | components/x11/dispswitch/src/dispswitch.c:1031-1091 | no valid completion of the same prefix scores higher than the one the search settles on |
| CrtcSearch.PickCrtcsScore | components/x11/dispswitch/src/dispswitch.c:1031-1091 | whatever the later outputs held before, on return the CRTC fields hold the maximal completion of the fixed prefix, and the value returned is its score |
| CrtcSearch.TryCrtc | components/x11/dispswitch/src/dispswitch.c:1057-1082 | trying one CRTC restores the prefix and finds, when usable, the best score of the completions that start with it; the later outputs being reset first, the check decides exactly usability for the prefix |
| CrtcSearch.ScoreCounts | components/x11/dispswitch/src/dispswitch.c:1070-1081 | the score of a valid assignment is 1000 per lit output plus 1 per kept CRTC; all enabled outputs are lit exactly when the lit count equals the enabled count |
| CrtcSearch.SearchIsLexicographic | components/x11/dispswitch/src/dispswitch.c:1070-1081 | with at most 1000 enabled outputs no valid assignment lights more outputs than the search does, nor as many with more CRTCs kept |
| CrtcSearch.SearchLightsAllIffPossible | components/x11/dispswitch/src/dispswitch.c:1096-1152 | with at most 1000 enabled outputs the search lights every one exactly when some valid assignment does |
| CrtcSearch.MatchSpare | components/x11/dispswitch/src/dispswitch.c:1105-1133 | on success every enabled connected output has a CRTC, only outputs without one were given one of their own, of two outputs that end on one CRTC, one just picked, one can clone the other, and a CRTC that was kept shows nothing else now; on failure one enabled output is stuck: its CRTC shows something else too, or it has none and none of its own passes the check; outcome and CRTCs are a function of those held before |
| CrtcSearch.FirstByXid | components/x11/dispswitch/src/dispswitch.c:357-365 | the output found is the first in the list with that xid, and none is found exactly when none has it |
| CrtcSearch.PickCrtcs | components/x11/dispswitch/src/dispswitch.c:1096-1152 | success means every connected enabled output has a CRTC; the search runs exactly when the simple match, as a function of the CRTCs held before, has an output stuck, its result is valid and maximal, and then, with at most 1000 enabled outputs, failure is reported exactly when no valid assignment lights every enabled output |
| CrtcSearch.MatchTwo | components/x11/dispswitch/src/dispswitch.c:1105-1133 | two enabled outputs without CRTCs, and CRTCs not set up: the simple match serves both exactly when the first has a CRTC and the second has a CRTC besides the first one's choice or can clone it there, and then gives both one CRTC exactly when their lists begin with the same and the second can clone the first |
| CrtcSearch.SearchTwo | components/x11/dispswitch/src/dispswitch.c:1133-1152 | when the search has to run for such two and finds a CRTC for both, they share one exactly when the second output comes before the first in the list of all outputs, has no other CRTC, and the first can clone it |
| Layout.RoundProgresses | components/x11/dispswitch/src/dispswitch.c:887-949 | when no output is, through its relatives, relative to itself, a round that leaves an output waiting places a new one |
| Layout.PlaceOne | components/x11/dispswitch/src/dispswitch.c:920-942 | the output ends where its relation puts it, and both it and its relative count as placed |
| Layout.Round | components/x11/dispswitch/src/dispswitch.c:889-944 | one round places exactly the outputs whose relative is not pending when their turn comes, and moves nothing already placed; it asks for another round exactly if some output was to be placed at its start, and reports progress exactly if some chained output was set |
| Layout.Place | components/x11/dispswitch/src/dispswitch.c:887-949 | the loop ends, without the fatal exit, with every related output at its final place next to a relative that is final too |
| Layout.FinishesIffAcyclic | components/x11/dispswitch/src/dispswitch.c:887-949 | however many rounds are allowed: the placement loop ends normally exactly when no unplaced output is, through its relatives, relative to itself |
| Layout.CycleNeverFinishes | components/x11/dispswitch/src/dispswitch.c:887-949 | with a cycle of unplaced outputs no number of rounds ends the loop normally; the fatal exit is taken in the first round, if nothing can be set in it, or never |
| Layout.PlaceFor | components/x11/dispswitch/src/dispswitch.c:887-949 | the loop run for any number of rounds stands where the round-by-round function says: finished, fatal, or running with those outputs placed |
| Layout.RunsForEver | components/x11/dispswitch/src/dispswitch.c:887-949 | two outputs relative to each other and a third relative to one that is off: however many rounds are allowed, the loop is still running |
| Layout.FatalAtOnce | components/x11/dispswitch/src/dispswitch.c:887-949 | with the two alone the fatal exit is taken in the first round |
| Layout.Normalize | components/x11/dispswitch/src/dispswitch.c:954-978 | one translation of all enabled outputs that makes every coordinate non-negative and the least x and y zero (unless all exceed 32768) |
| Layout.SetPositions | components/x11/dispswitch/src/dispswitch.c:880-979 | every relation holds between final positions, and one that is next to another is so by the width or height of the mode in question, swapped by a quarter turn; outputs without a relation keep their relative position; an output relative to one that is off sits at the translated origin |
| Layout.SetScreenSize | components/x11/dispswitch/src/dispswitch.c:982-1015 | the tight box around all enabled outputs, raised to the minimum, and success exactly when that box is within the maximum; on success every enabled output lies inside counted in the pixels of its mode, width and height swapped by a quarter turn, and the box of a single output is exactly that, or empty where it lies before the origin |
| Layout.BoxInPixels | components/x11/dispswitch/src/dispswitch.c:982-1015 | the tight box counts the pixels of the modes, by the rotation |
| Commit.StartOver | components/x11/dispswitch/src/dispswitch.c:1557-1571 | every connected output loses its relation and stands at the remembered position, or at the origin |
| Commit.Wire | components/x11/dispswitch/src/dispswitch.c:1691-1703 | two outputs side by side, one to the right of the other as the state says: what set_positions needs holds, so there is never a cycle |
| Commit.SideBySide | components/x11/dispswitch/src/dispswitch.c:1691-1706 | wired and placed, the one output stands right next to the other, by the pixels of the other's mode, at one height, and neither before the origin |
| Commit.CrtcAddOutput | components/x11/dispswitch/src/dispswitch.c:499-514 | the output is appended, and the first one sets position, rotation and mode |
| Commit.SetCrtcs | components/x11/dispswitch/src/dispswitch.c:516-528 | every CRTC ends with exactly the enabled outputs given to it, in order, set up the way the first of them wants it |
| Commit.TurnOffOne | components/x11/dispswitch/src/dispswitch.c:701-746 | the step succeeds exactly when the old mode is known and a request, made exactly when the CRTC is on and is to be off or does not fit the new size, is accepted; then a CRTC that is to stay on and lies inside the new size shows what it did, and any other that was on shows nothing; a refusal or an unknown mode changes nothing |
| Commit.TurnOff | components/x11/dispswitch/src/dispswitch.c:701-746 | the loop gets exactly as far as the old modes are known and the requests accepted, with so many requests made; at each the enabled CRTCs lie inside the screen, and each CRTC passed shows what it did before or nothing, as its new mode and the new size demand |
| Commit.DimmedIsSafe | components/x11/dispswitch/src/dispswitch.c:756-759 | after that the screen may take the new size with every enabled CRTC inside it; of those that were on exactly the ones to be disabled or not inside the new size are off |
| Commit.CrtcApply | components/x11/dispswitch/src/dispswitch.c:765-772 | the result is the server's answer, or failure without a request if the array for the outputs cannot be had; setting a CRTC that fits keeps the server safe and shows exactly the target, or nothing changes |
| Commit.ReachedIsShown | components/x11/dispswitch/src/dispswitch.c:499-528 | CRTCs set up and set as told show, for the enabled outputs they have been given, position, mode and rotation of the first of them and the xids of all, in order, and nothing where there are none |
| Commit.TurnOn | components/x11/dispswitch/src/dispswitch.c:765-772 | the loop gets exactly as far as there is memory and the requests are accepted; each CRTC passed shows its target or is off, and the server was safe throughout |
| Commit.DisableAll | components/x11/dispswitch/src/dispswitch.c:656-658 | every CRTC is asked once, and each that obeys is dark; the server was safe throughout exactly if the picture fits the size after every request |
| Commit.RestoreAll | components/x11/dispswitch/src/dispswitch.c:661-663 | every CRTC is asked once, and each that obeys shows what it did at first; the server was safe throughout exactly if the picture fits the size after every request |
| Commit.RestoringIsSafe | components/x11/dispswitch/src/dispswitch.c:661-663 | restoring keeps a safe picture safe exactly when every configuration whose request is accepted fits |
| Commit.Revert | components/x11/dispswitch/src/dispswitch.c:651-664 | the screen is resized with every CRTC off exactly when each CRTC that was on obeys; the run is safe exactly when what stays lit, and each old configuration that is accepted, fits the old size; each CRTC ends restored, dark or as it was, as its two requests are answered |
| Commit.RevertOutcome | components/x11/dispswitch/src/dispswitch.c:651-664 | the same of the picture and the answers alone: darkness at the resize, safety of every later request and the last picture, each with its exact condition |
| Commit.RefusedDisable | components/x11/dispswitch/src/dispswitch.c:651-664 | a run in which a disable is refused twice and the screen is resized under a CRTC that is on, safe only if the CRTC still fits |
| Commit.Apply | components/x11/dispswitch/src/dispswitch.c:671-778 | it succeeds exactly when the old modes are known, the output arrays can be had and every request of the two loops is accepted; every request up to success or panic leaves every enabled CRTC inside the current screen; success shows every target at the new size; after a panic all is as revert leaves it from that picture and request number, and the run is safe exactly if that revert is |
| Commit.WillingServer | components/x11/dispswitch/src/dispswitch.c:671-778 | with a server that accepts everything, known old modes and memory apply succeeds |
| Commit.ResetCrtcs | components/x11/dispswitch/src/dispswitch.c:530-542 | an output lets go of its CRTC exactly when that CRTC has been set up for some output |
| Commit.Configure | components/x11/dispswitch/src/dispswitch.c:516-528 | after set_crtcs every target fits the screen computed, and each enabled output with a CRTC is shown by that CRTC's request |
| Commit.SetUpAndApply | components/x11/dispswitch/src/dispswitch.c:1722-1723 | set_crtcs and apply together: every CRTC is set up for exactly its outputs; apply then succeeds exactly as stated for it, and on success every CRTC shows the x, y, mode and rotation of the first enabled output given to it and the xids of exactly those outputs, in order |
| Commit.Pick | components/x11/dispswitch/src/dispswitch.c:1713-1717 | reset and pick: on success every enabled output has a CRTC; failure comes only after a search, for at most 1000 enabled outputs exactly when no valid assignment lights all; for two outputs alone it is known from their CRTC and clone lists whether the search runs and whether both get one CRTC |
| Commit.SideIsShown | components/x11/dispswitch/src/dispswitch.c:1691-1725 | what is shown of two outputs side by side: with a CRTC each the pictures lie next to each other and do not overlap; with one CRTC for both, both show the picture of the first |
| Commit.Switch | components/x11/dispswitch/src/dispswitch.c:1691-1725 | do_switch with the modes chosen: the outputs stand where the state wants them; too big exactly when the tight box exceeds the maximum; no CRTC exactly when, after the reset, the search had to run and, for at most 1000 enabled outputs, no valid assignment lights all; in both cases nothing is asked of the server; otherwise it succeeds exactly when apply does, no request before a panic is unsafe, and on success every CRTC shows what its outputs want at the new screen size; side by side the two pictures lie next to each other exactly if the CRTCs differ, which for two outputs alone is known beforehand |
| Commit.MirroredSideBySide | components/x11/dispswitch/src/dispswitch.c:1691-1725 | a run in which two outputs side by side are given one CRTC, and both show the picture at the origin |
| RpcStruct.Struct.AddEntry | components/library/libevent2/files/event_rpcgen.py:72-81 | an entry is accepted exactly when it is legal and its tag is new, and then is appended |
| RpcStruct.ProcessStruct | components/library/libevent2/files/event_rpcgen.py:1573-1594 | a struct comes out, with the declared entries in order, exactly when every declaration is legal and no tag repeats |
| RpcStruct.ArrayField.ExpandToHoldMore | components/library/libevent2/files/event_rpcgen.py:1286-1300 | growth keeps the elements and doubles the allocation, from none to one; a failed allocation changes nothing |
| RpcStruct.ArrayField.Add | components/library/libevent2/files/event_rpcgen.py:1302-1324 | the element is appended exactly when it could be copied and there is memory or no need to grow, otherwise the contents stay; the allocation stays zero or a power of two, at least the length and at most 2 * (length + 1) |
| RpcStruct.ArrayField.Unmarshal | components/library/libevent2/files/event_rpcgen.py:1352-1382 | the same for an element read from the wire, which grows the array only when it is full |
| RpcStruct.ArrayField.Clear | components/library/libevent2/files/event_rpcgen.py:1400-1433 | the array is empty and unset; an allocation left by failed additions to an unset array stays |
| RpcTheorems.UnmarshalExact | components/library/libevent2/files/event_rpcgen.py:292-347 | reading into a blank struct succeeds exactly when every tag is known, every payload decodes, no tag but an array's repeats and every required entry is present, recursively; the result is determined by the payloads of each tag |
| RpcTheorems.DecodesIff | components/library/libevent2/files/event_rpcgen.py:379-402 | a payload decodes exactly when it is acceptable for its kind, nested structs included |
| RpcTheorems.ReadIsTyped | components/library/libevent2/files/event_rpcgen.py:292-347 | whatever bytes arrive, what is read into a typed struct leaves a typed one, at every depth: integers within their width, byte blocks of their length, strings without a NUL |
| RpcTheorems.OrderAcrossTagsIsFree | components/library/libevent2/files/event_rpcgen.py:292-347 | two frame sequences with the same payloads per tag are read to the same result |
| RpcTheorems.SwappingTagsIsFree | components/library/libevent2/files/event_rpcgen.py:292-347 | neighbouring frames with different tags may change places |
| RpcTheorems.PayloadsOfMarshal | components/library/libevent2/files/event_rpcgen.py:264-288 | under an entry's tag a marshalled message holds what is written for that entry: the encodings of its items in order, the initial value if a required scalar has none, nothing if it is optional and unset |
| RpcTheorems.MarshalledAreKnown | components/library/libevent2/files/event_rpcgen.py:264-288 | every frame written carries a tag of the schema |
| RpcTheorems.DecodeEncode | components/library/libevent2/files/event_rpcgen.py:1006-1026 | decoding the encoding of any typed value gives what was sent of it, however deeply it nests |
| RpcTheorems.ItemsRoundTrip | components/library/libevent2/files/event_rpcgen.py:1352-1398 | all elements of an array are read back in order |
| RpcTheorems.RoundTrip | components/library/libevent2/files/event_rpcgen.py:264-347 | for every well-formed schema and every typed message that can be marshalled, complete or not, unmarshalling the marshalled frames into a fresh struct succeeds and gives what the frames say |
| RpcTheorems.SentIffComplete | components/library/libevent2/files/event_rpcgen.py:264-288 | what the frames of a message say is what the message says exactly when it is complete at every depth |
| RpcTheorems.CompleteIsMarshallable | components/library/libevent2/files/event_rpcgen.py:264-288 | every complete message can be marshalled |
| RpcTheorems.IncompleteArrives | components/library/libevent2/files/event_rpcgen.py:264-347 | a message without its required integer is not complete, yet is received as a complete one saying zero |
| RpcTheorems.ClearedIsSent | components/library/libevent2/files/event_rpcgen.py:675-682 | a cleared struct sends nothing for optional entries and arrays, zero bytes for a required byte block, but for a required integer the value it held before; a fresh one sends zeros |
| RpcTheorems.CopyIsExact | components/library/libevent2/files/event_rpcgen.py:953-993 | marshalling a message and reading it into a cleared old struct succeeds, and the struct then says exactly what the frames say, whatever it held before |
| RpcCode.MarshalInto | components/library/libevent2/files/event_rpcgen.py:264-288 | the emitted code appends exactly the frames of the specification to the buffer, for every message whose required strings and structs are there |
| RpcCode.CheckComplete | components/library/libevent2/files/event_rpcgen.py:358-380 | the emitted check is true exactly when all that is required is there, at every depth |
| RpcCode.UnmarshalFrom | components/library/libevent2/files/event_rpcgen.py:292-356 | the emitted loop over the buffer computes the specified result, and drains the buffer on success |
| RpcCode.AssignStruct | components/library/libevent2/files/event_rpcgen.py:953-993 | the assignment succeeds for every value that can be marshalled unless memory runs out, and then the field is freed; the field says what was sent, which is what the value says exactly when the value is complete |
| WindowSync.RunIsLater | components/x11/libdga/src/dga.h:189-202 | any run of server changes advances the master count by their number, so an equal count means no change |
| WindowSync.LoopThrough | components/x11/libdga/src/win_update.c:93-123 | the loop goes through the first gaps of the server's plan to its last test, and through further ones to its end |
| WindowSync.MissedInLastRound | components/x11/libdga/src/win_update.c:93-123 | a retirement goes unnoticed exactly when it lies in the gaps of the last round and not before |
| WindowSync.NothingMissed | components/x11/libdga/src/win_update.c:93-123 | a server that retires the window in no gap is never misread |
| WindowSync.OvlMovedWhere | components/x11/libdga/src/win_update.c:93-123 | a change of overlay state is noted only if the state differed somewhere in the gaps gone through, and always if it differs in the end |
| WindowSync.DgaWindow.SyncChanges | components/x11/libdga/src/win_update.c:291-320 | each attribute that differs is refreshed and noted; if the lock was never dropped the client agrees with the page afterwards |
| WindowSync.DgaWindow.SyncAgain | components/x11/libdga/src/win_update.c:186-218 | another round is asked for exactly when some count or the overlay state differs from the page |
| WindowSync.DgaWindow.SyncRound | components/x11/libdga/src/win_update.c:94-123 | a round is the specified one: it ends in step, or with the window retired, or because the server moved while the lock was dropped |
| WindowSync.DgaWindow.Synchronize | components/x11/libdga/src/win_update.c:88-123 | the loop ends where the specification says; unless the window was found retired all copies are the server's, and the mask holds exactly the counts that differ from those last reported, all of them after a multibuffer change, and the unmapped retained window |
| WindowSync.DgaWindow.FigureDerivChgs | components/x11/libdga/src/mbsmemb_update.c:231-280 | a site change is added for a retired window (with a clip change), for the first lock and for a multibuffer change, and only then, each with its reason in that order |
| WindowSync.DgaWindow.Notify | components/x11/libdga/src/mbsmemb_update.c:287-305 | what has a notification function is delivered and leaves the mask; nothing else leaves it but the multibuffer flag |
| WindowSync.DgaWindow.DevinfoUpdate | components/x11/libdga/src/mbsmemb_update.c:307-327 | unless retired, the device info count is taken over and a difference noted |
| WindowSync.DgaWindow.Update | components/x11/libdga/src/win_update.c:72-168 | the page, the server's plan and the last test are those of the loop as a function of the state before; the window is reported retired exactly when the page was so at that test; otherwise the client is in step and what is in the mask or was delivered is exactly what differs from what it was told before, everything after a multibuffer change, an unmapped retained window, an overlay state found to differ and the site at the first lock; the site's reason is kept unless delivered; an overlay shape that is not in conflict is no longer valid |
| WindowSync.DgaWindow.DrawLock | components/x11/libdga/src/dga.h:189-202 | the fast path is taken exactly at equal counts, and only when the page has not changed since the last update, so it hides nothing and touches nothing; the slow path ends where the loop does, reports retirement exactly as its last test finds it, tells exactly what it has to and invalidates the overlay shape; a nested lock does nothing |
| WindowSync.DgaWindow.ClipChg | components/x11/libdga/src/win_grab.c:1156-1168 | at any time the call tells whether the clip list changed and takes the count over; what the client was told then stays within what it has exactly if its copy is the server's, as it is under the lock |
| WindowSync.Session | components/x11/libdga/src/dga.h:189-211 | over any run of changes, gaps and locks the pages are those the given changes and the planned gaps make; every lock tells all that moved since the lock before, and just what it has to, unless the client knows that the window is gone, and nothing when nothing has changed; at the end the client is in step or knows that it is gone |
| WindowSync.TwoLocks | components/x11/libdga/src/win_update.c:93-123 | the first of two locks misses a retirement exactly when the loop does; the counts are equal then and the second tells nothing |
| WindowSync.RetirementMissed | components/x11/libdga/src/win_update.c:93-123 | a run from a fresh window in which the server retires it during the last refresh: the lock does not report it, the client's count equals the server's, and the next lock takes the fast path |
| PixmapSync.WordTellsApart | components/x11/libdga/src/dga.h:189-202 | two counts less than a full turn apart look equal in 32 bits exactly when they are equal |
| PixmapSync.DgaPixmap.Collect | components/x11/libdga/src/pix_update.c:68-91 | the mask names exactly what differs from the page, the page's values are taken over, and the reason for a site change is the cache before a retirement |
| PixmapSync.DgaPixmap.Update | components/x11/libdga/src/pix_update.c:47-113 | every change since the last update, and no other, is in the mask or was sent to the site function, as long as fewer than 2^32 changes passed |
| PixmapSync.DgaPixmap.DrawLock | components/x11/libdga/src/dga.h:189-202 | the fast path is taken exactly when the number of changes is a multiple of 2^32; below that an outermost lock leaves device info, cache count and cached flag equal to the server's |
| PixmapSync.Session | components/x11/libdga/src/dga.h:189-211 | over any run of changes and locks in which 2^32 changes never pile up between locks, from a fresh pixmap on: the page is the one the changes make, every lock tells just what changed since the one before, and the client holds what it said at the last lock |
| SharedColormap.StutterKeepsByte | components/x11/libdga/src/cmap_grab.c:589-652 | both halves of a stuttered signed short are the byte, and the arithmetic shift gives it back, also from 128 on, where the short is negative |
| SharedColormap.Grabbedcmap.WritePlane | components/x11/libdga/src/cmap_grab.c:643-652 | the plane changes like a plain map overwritten in the range, and the other two planes do not change |
| SharedColormap.OverwriteRewrites | components/x11/libdga/src/cmap_grab.c:635-636 | a clipped write reaches cell i exactly when it is asked for and exists, and no other cell changes |
| SharedColormap.Grabbedcmap.Put | components/x11/libdga/src/cmap_grab.c:614-655 | in each plane exactly the cells asked for that exist hold the new bytes, and exactly their flags are raised; cells stay stuttered; range and change count are updated only when something was written |
| SharedColormap.Grabbedcmap.Get | components/x11/libdga/src/cmap_grab.c:556-595 | returns the bytes the three maps hold in the part of the range that exists |
| SharedColormap.ExtendCovers | components/x11/libdga/src/cmap_grab.c:635-638 | the recorded range covers the cells just written and reaches no further than those and the earlier range; it still covers the earlier range exactly when the write does not begin before it or reaches its end |
| SharedColormap.PutLosesEnd | components/x11/libdga/src/cmap_grab.c:635-638 | a run on four cells, the last three valid: putting the first leaves the last outside the recorded range |
| SharedColormap.PutAll | components/x11/libdga/src/cmap_grab.c:614-655 | any run of puts takes each plane where the same run of writes takes a plain map; exactly the flags of the cells written are raised, and range and change count are extended once for each put that writes |
| SharedColormap.LastWriteWins | components/x11/libdga/src/cmap_grab.c:614-655 | after any run of writes a cell holds the byte of the last write that touched it |
| SharedColormap.PutsThenGet | components/x11/libdga/src/cmap_grab.c:556-655 | a get after any run of puts returns for every cell in reach the byte of the last put that wrote it, or the one it held |
| GrabList.CloseUndoesOpen | components/x11/libdga/src/cmap_grab.c:942-1006 | closing right after opening gives the device list back |
| GrabList.Libdga.SunwindowsOpen | components/x11/libdga/src/cmap_grab.c:942-981 | it succeeds exactly when the device is listed or can be opened and recorded; a listed device gains a use, another is listed with one use, and a failure changes nothing |
| GrabList.Libdga.SunwindowsClose | components/x11/libdga/src/cmap_grab.c:984-1006 | the use is dropped, and the descriptor is closed exactly when it was the last |
| GrabList.Libdga.Cleanup | components/x11/libdga/src/cmap_grab.c:458-504 | the record is unlinked, its device uses are dropped, and exactly the descriptors no longer used are closed |
| GrabList.Libdga.AcquireDevice | components/x11/libdga/src/cmap_grab.c:257-425 | it succeeds exactly when every step from the info page to the lock page does, and then the record holds the caller's framebuffer descriptor or one not open before, and as lock device its own new descriptor, the framebuffer or none, as the lock type says; whatever step fails, the descriptors left open are exactly those the cleanup arguments name |
| GrabList.Libdga.Grab | components/x11/libdga/src/cmap_grab.c:212-456 | it succeeds exactly when the token is listed or memory, files, lock and devices can all be had; success raises that token's count by one; a new record holds the caller's descriptor or a new one, its lock device and the listed devices its page names, and exactly what has been opened since; failure leaves the list, the devices and the open descriptors as they were |
| GrabList.Libdga.Ungrab | components/x11/libdga/src/cmap_grab.c:505-533 | the token's count drops by one; the last ungrab releases what the record holds |
| GrabList.ReleaseCounts | components/x11/libdga/src/cmap_grab.c:984-1006 | closing what a colormap holds lowers every device count by the handles it holds |
| GrabList.Session | components/x11/libdga/src/cmap_grab.c:212-533 | over any run of grabs, with or without the caller's descriptor, failing or not, ungrabs, opens and closes of files, with descriptor numbers used again: as long as nobody else closes the library's devices, a token's count is its grabs that work less its ungrabs, every device count the handles held by listed colormaps, and a failed grab changes nothing |
| GrabList.NewGivesBack | components/x11/libdga/src/cmap_grab.c:458-533 | what is open once a new record has been given back: what was before, with the framebuffer or without it |
| GrabList.GrabAndUngrab | components/x11/libdga/src/cmap_grab.c:212-533 | a grab of a new token and its ungrab leave the list and every device count as they were; of the descriptors just the framebuffer, the caller's or a new one, is closed or left open, as the flag of the ungrab says |
| WindowList.FreedIsValid | components/x11/libdga/src/dga_Xrequests.c:1377-1412 | freeing keeps tokens distinct and counts positive, and lowers the sum of the counts when it matches anything |
| WindowList.FreedUses | components/x11/libdga/src/dga_Xrequests.c:1377-1412 | freeing a window takes one of its counted uses, if there is one, and none of any other window; freeing the null window takes all uses of the display's windows and no other |
| WindowList.PurgeRemoves | components/x11/libdga/src/dga_Xrequests.c:1343-1375 | the purge removes the token's stale record and the earlier records of the same window; everything else keeps its place and count |
| WindowList.AddedUses | components/x11/libdga/src/dga_Xrequests.c:1343-1375 | adding a token that is new or stands for this window counts one more use of the window and of no other |
| WindowList.WinList.IsXWindow | components/x11/libdga/src/dga_Xrequests.c:1413-1431 | finds the record of the token, if it is listed |
| WindowList.WinList.Free | components/x11/libdga/src/dga_Xrequests.c:1377-1412 | with a null window exactly the display's records go, the rest staying in order; otherwise the first record of the window loses one count, or goes at zero; the answer says whether anything matched |
| WindowList.WinList.Add | components/x11/libdga/src/dga_Xrequests.c:1343-1375 | the purge loop ends; on success the token stands for the given display and window, with one count more or a new record in front; without a purge the window gains one use and no other window does |
| FlipPacing.WordsApart | components/x11/libdga/src/dga_db.c:240-241 | the difference of the two counter words is the time between modulo 2^32, so it never overstates it |
| FlipPacing.DbWindow.IntervalCheck | components/x11/libdga/src/dga_db.c:248-261 | a flip is due only after the interval, and exactly then if fewer than 2^32 retraces have passed |
| FlipPacing.DbWindow.IntervalWait | components/x11/libdga/src/dga_db.c:229-246 | whenever the wait can end it ends after just the calls it takes, at that time, and after at most one call per retrace missing if no call can slip past the interval; the interval is over then unless the last call failed |
| FlipPacing.AllEndIff | components/x11/libdga/src/dga_db.c:229-246 | every wait ends, for all retrace functions that see between one and a given number of retraces a call or fail, exactly when that number is at most 2^32 less the interval |
| FlipPacing.TickingEnds | components/x11/libdga/src/dga_db.c:229-246 | a retrace function that sees a retrace in each call, and none longer than 2^32 less the interval, ends every wait within one call per retrace missing |
| FlipPacing.WholeTurnsNeverEnd | components/x11/libdga/src/dga_db.c:229-246 | calls that take whole turns of the counter never end the wait, though the interval is long past |
| FlipPacing.SlippingNeverEnds | components/x11/libdga/src/dga_db.c:229-246 | calls that see one retrace, but every so often take the counter just past its turn, keep the wait going for ever: for an interval of two, calls of 1 and 2^32 - 1 in turn |
| FlipPacing.DbWindow.Display | components/x11/libdga/src/dga_db.c:179-203 | the flip is recorded an interval or more after the last counter reading, however many retraces pass at its three points, unless the wait gave up |
| FlipPacing.Animate | components/x11/libdga/src/dga_db.c:179-203 | over any run of flips every two consecutive ones are at least the interval apart, counter wraps included |
| Cmc.GrabAll | components/x11/cmap_compact/src/cmcinit.c:62-69 | the halving requests obtain all free cells of the colormap, each once, without overrunning the buffer |
| Cmc.AllocateColors | components/x11/cmap_compact/src/cmcinit.c:86-88 | with a released cell for each color the fatal error is never reached; each color gains one allocation |
| Cmc.CmcAlloc | components/x11/cmap_compact/src/cmcinit.c:38-112 | min(N, F) colors gain one allocation each and no other color does; no private cell remains, cells owned before are untouched, and the count published includes white and black at the high end |
| Cmc.MarkIgnored | components/x11/cmap_compact/src/cmcsave.c:121-124 | marking pixels found free lowers the number of cells still marked by their number |
| Cmc.FindFree | components/x11/cmap_compact/src/cmcsave.c:104-125 | after the grab phase exactly the cells that were free are ignored, and ncolors is the number of those that are not |
| Cmc.Sift | components/x11/cmap_compact/src/cmcsave.c:135-161 | the sifting loop eliminates every reserved, read/write, white and black cell and no other; ncolors stays the number of cells left |
| Cmc.Collect | components/x11/cmap_compact/src/cmcsave.c:166-177 | the copy loop fills the allocated array exactly, in pixel order |
| Cmc.CmcRecord | components/x11/cmap_compact/src/cmcsave.c:73-183 | what is recorded is exactly the read-only cells that can be looked at and are neither white nor black, in pixel order |
| AliasLexer.Lexer.LexC | components/x11/installalias/src/installalias.c:275-307 | one item of the language is read, with its class and character |
| AliasLexer.Lexer.LexAlias | components/x11/installalias/src/installalias.c:195-273 | the token, its kind and the bytes taken are those of the language's specification; the buffer is never overrun and ends at the specified size; allocation failure is reported exactly when the token needs a buffer beyond the limit |
| AliasLexer.CopyLowered | components/x11/installalias/src/installalias.c:321-328 | every byte is lowered by the Latin-1 rule: the capitals go to the small letters of their range, order kept, and nothing else changes |
| AliasLanguage.ToLowerIncreases | components/x11/installalias/src/installalias.c:309-318 | lowering keeps the order of the capitals, which with the ranges of ToLower leaves one choice for each |
| AliasLexer.Lexer.ReadAliases | components/x11/installalias/src/installalias.c:330-372 | returns the pair the language defines for the rest of the file, passing over lines with only one name, and none exactly when the file ends, a token in the way needs a buffer beyond the limit, or the font name of the pair overruns its buffer, which happens exactly from 1024 bytes on |
| AliasLexer.AllWithinIsPrefix | components/x11/installalias/src/installalias.c:330-372 | the limit only ever cuts the reading short, and not at all if it is 64 bytes and twice the file |
| AliasLexer.Lexer.Rewrite | components/x11/installalias/src/installalias.c:528-561 | unless a font name read overruns its buffer, the new file is the lines of exactly the pairs reached within the limit whose names differ and whose font is found, in order |
| AliasLanguage.EveryTokenCanBeWritten | components/x11/installalias/src/installalias.c:195-307 | with a backslash before every character and quotes around, any byte string lexes as one token |
| AliasLanguage.WordIsRead | components/x11/installalias/src/installalias.c:195-307 | blanks and then a word made of any plain or escaped characters and quoted stretches, up to a blank, a newline or the end of the file: the token is what the word says, and only a blank is taken with it |
| AliasLanguage.LoweredReadsTheSame | components/x11/installalias/src/installalias.c:321-372 | a file and the file with its unescaped capitals lowered read as the same pairs |
| AliasLanguage.LineReadsBack | components/x11/installalias/src/installalias.c:550-555 | the line written for a writable pair reads back as that pair |
| AliasLanguage.ReadsBackIffWritable | components/x11/installalias/src/installalias.c:550-555 | the line written for a pair of texts reads back as that pair, whole, exactly when the alias is not empty, neither name has a quote, backslash or newline, and the alias has no tab unless it has a space |
| AliasLanguage.QuoteIsLost | components/x11/installalias/src/installalias.c:550-555 | a file whose alias is an escaped quote: the pair is passed on, and the file written for it reads as no pair |
| AliasLanguage.FileReadsBack | components/x11/installalias/src/installalias.c:528-561 | a whole file of writable pairs reads back as it was written |
| AliasLanguage.ReadIsText | components/x11/installalias/src/installalias.c:363-366 | what is read is always lower-case, without NUL, and the alias fits its buffer |
| AliasLanguage.LongFontDoesNotFit | components/x11/installalias/src/installalias.c:363-366 | a file of one pair whose font name has 1024 bytes |
| AliasLanguage.RewrittenReadsBack | components/x11/installalias/src/installalias.c:528-561 | whatever pairs a file has, if every pair passed on is writable the new file reads as just those pairs, and their font names fit |
| AliasLanguage.KeptExactly | components/x11/installalias/src/installalias.c:528-555 | a pair is passed on exactly if the file has it, cut to size, under a name that is not its own and with a font that is found |

## Left out

- WindowSync.DgaWindow.Update: does not model wrap-around of the window change counters, because the page is described by how often each count has moved (for pixmaps and flips the 32-bit words are modelled); windows are never multibuffered when the client looks, and MT mode is off.
- Commit.Apply: does not model the `need_off_deferred` hardware workaround, which postpones disabling; nor dry runs and the server grab.
- Commit.Switch: starts with the modes chosen, and from CRTC records as `get_crtcs` makes them, with no output list; `reset_crtcs_for_outputs` is modelled by its effect on the outputs, and that it frees a list shared by clones once for each of them is memory management, which is not. Outputs are assumed to hold no CRTC record of an earlier switch that had no output. Whether two outputs side by side will share a CRTC is known beforehand when they are the only enabled ones and hold no CRTC after the reset; otherwise it is stated of the CRTCs picked.
- GrabList.Session: excludes a client that closes descriptors of the library's devices, itself or by an ungrab with a number of theirs: two devices may get one number then.
- RpcStruct.ArrayField.ExpandToHoldMore: does not model the int overflow of the doubling at 2^31 elements.
- RpcCode.MarshalInto: a required string or struct without data is excluded, because the emitted code follows its null pointer; `RpcCode.AssignStruct` likewise.
- SharedColormap.Grabbedcmap.Put: excludes an index below zero, which the program does not check; posting to the hardware is not modelled.
- FlipPacing.Animate: assumes a retrace function with which no wait goes on for ever and no call fails; the interval is fixed, and a missing retrace function counts as one that fails.
- AliasLanguage.ReadsBackIffWritable: for aliases of at most 1023 bytes, all the reader ever returns.
- AliasLexer.Lexer.Rewrite: says nothing of the file written once a font name has overrun its buffer, because anything may happen then; the lemmas about `ReadAll`, `AliasLanguage.RewrittenReadsBack` among them, are about the language and leave that out.
- dispswitch: mode selection before `set_positions`, probing, options, key grabbing and the event loop. An output lists its CRTC records, so the fatal exit for an unknown CRTC does not arise; a related output always has a relative, as its callers see to. Coordinates are unbounded integers.
- event_rpcgen: comment stripping, token parsing, header guards and C text formatting; `RpcStruct.ProcessStruct` takes parsed declarations. The byte encoding of tags and lengths belongs to libevent and is the `Codec`. Allocation failures inside nested unmarshalling and null strings in arrays are not modelled, nor what a failed unmarshal leaves in the struct. Messages are values, so aliasing of an assigned struct is not captured.
- libdga: the refresh routines for clip, cursor and retained state are not part of this model; their contract is that the refreshed copy is current on return and the server may have moved. Linked lists are sequences, and unlinking through a previous-pointer is removal at an index. Unmapping is not tracked, only descriptors and counts. The interval in floating point, pixmap directories, `dga_ab.c`, the drawing and inquiry veneers and multibuffer aliasing are left out.
- cmap_compact: the server is grabbed throughout, so no other client changes cells; the colors file and the allocation failure of the recorded array are not modelled.
- installalias: looking a font up and resolving aliases rest on libXfont tables; their outcome is the parameter `found` of `Rewrite`.
- The other components (package tools, patches, headers, wrappers) would only add easy members.
