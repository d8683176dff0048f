# Verified models of the apple_cmds sources

This project models five parts of the repository in Dafny and proves what they are for.

- **migcom**, the MIG stub compiler. The emitter loops and the code they emit are modelled together,
  over byte buffers: packing, the running size checks, the pointers that both sides move on their
  own, extraction, return codes. `MigTypes` has the type declarations and the fields they stand for,
  `MigLayout` the message shapes and sizes, `MigMessage` the size check and the reference parser it is
  compared with, `MigRequest` and `MigReply` the two directions, `MigCall` whole replies, `MigInOut`
  arrays whose room the caller limits. `MigArguments` is the pass that adds implicit arguments,
  `MigDispatch` the numbering, the tables and the demultiplexer, `MigTypeList` the move-to-front list
  of types.
- **uuencode and uudecode**: `Base64`, `Base64Stream` and `Uucode`.
- **gencat**: `SortedList` and `Catalogue` for the linked lists in memory, `CatalogueFile` for the
  file that is written with seeks and read by chasing offsets, `Gencat` for a whole edit.
- **last**: `Sessions`.
- **whois**: `WhoisConnect` for the sockets, `WhoisReferral` for the chain of referrals.

`Bytes`, `Options` and `CaseFold` hold what several of them share. `dafny verify dfyconfig.toml`
checks everything.

## How the models read the sources

- Message shapes are sequences of fields: `Fixed(bytes)`, `Chars(max)` or `Var(text, elem, max)`. The structs are
  packed to words (`bootstrap_cmds/migcom.tproj/utils.c:422`), so offsets are sums of word-aligned
  sizes. Sizes and counts of the emitted code are 32-bit and wrap explicitly; products are written as
  repeated sums.
- The fields of a shape are those that declared types mean (`MigTypes.Meaning`). migcom computes their
  sizes with unsigned ints; `MigTypes.PrintsExactly` says exactly for which declarations the constants
  it prints are right, and `MigTypes.Sound` is that condition, to be read off the declaration.
- A type that is only another name for a varying string has the whole string as its one element, because
  itCopyType makes the old type the element (`bootstrap_cmds/migcom.tproj/type.c:410-422`). Its characters
  are then counted against a limit of one, each with the size of the whole string, and the client does
  not test counts of strings. Such a value is oversized unless it is empty: the sender runs over, and the
  receiver refuses what comes of it. The round trips hold for every value that is not oversized, and only
  for those; the stores of a stub behind the place where it runs over are not followed.
  `MigTypes.AliasRunsOver` is an example.
- A server procedure keeps counted Out arrays within their maximum, which the stub takes on trust.
- rtSizeDelta starts from the size of a request header even when it sizes a reply
  (`bootstrap_cmds/migcom.tproj/routine.c:1802-1843`); `MigLayout.SizeDelta` shows that the printed
  difference is right anyway.
- The arguments of migcom's list are values that know what they were made for, instead of heap nodes;
  `MigArguments.NewIsNew` shows that no node would be made twice, so values stand for nodes.
- The environment is arbitrary: stack contents before packing, Out values stored by the server
  procedure, the previous contents of a catalogue file, log records and filters, every answer of the
  kernel, every reply of a whois server. From poll the model takes only that a positive result means an
  event on a watched descriptor, which makes the polling loop end, that a socket which is ready
  without an error is connected, and that the result is not zero where there is no timeout.
- connect_to_any_host polls only after an attempt: if the last address gets no socket, the `continue`
  (`adv_cmds/whois/whois.c:356-371`) skips the final poll, and attempts still pending are closed.
- The demultiplexer compares an id with the sum of base and number of routines, less one, printed as an
  int (`bootstrap_cmds/migcom.tproj/server.c:523`). `MigDispatch.Serve` says what happens on either side
  of the largest int; the base is a non-negative int, as atoi reads it, and the routines are at most 2^31.
- The check emitted for strings in kernel servers asks whether strnlen, limited to N, returns at least
  N + 1 (`bootstrap_cmds/migcom.tproj/server.c:2363-2372`), which it never does; so those servers
  accept unterminated strings, and `MigRequest.Accepts` says so.
- The decoders of uudecode are methods over the whole input stream, proved equal to functions of the
  text. A leftover of 1024 characters leaves base64_decode no room to read, and the original loops
  for ever; `Base64Stream.StreamExactlyWhenGroupsFit` says exactly when.
- uudecode accepts the characters from space to backquote, although its message about characters out of
  range gives 33, which is behind the space, as the first (`basic_cmds/uudecode/uudecode.c:386-393`);
  `Uucode.InRangeExactly` follows the code.
- The reader of catalogues goes on for ever when an offset leads back to a set it has read; this is
  the outcome Endless, which the model finds by remembering places. `CatalogueFile.EndlessExactly`
  ties it to the loop of the source, which remembers none.
- rtAddCountInOutArg follows `arg->argCount`, which is null for an argument with sub-counts. A type that is
  only another name for a varying array of ports gets there, because itCopyType makes the array its
  element (`bootstrap_cmds/migcom.tproj/type.c:410-422`).
- gencat truncates the catalogue before it parses the edits (`adv_cmds/gencat/gencat.c:116-123`), so an
  error in them loses the old catalogue.
- MCDelSet frees each message of the set and then reads its `next` (`adv_cmds/gencat/genlib.c:763-767`).
  The model takes for it what the message held; `Catalogue.Cat.DelSet` says exactly when it happens.
- gencat's searches give up at a larger id, which finds every id only in sorted lists
  (`SortedList.EarlyExitExactly`).
- MCDelSet leaves `curSet` on a set that it has freed (`adv_cmds/gencat/genlib.c:755-781`). The runs of
  `Gencat.Run` are those that do not use such a set; every other order of operations is allowed.
- MCReadCat links a set before its messages; `Gencat.Load` links the messages first, which makes no
  difference to the result.
- The limit on lines is counted differently for date lines of last: their test
  (`adv_cmds/last/last.c:190`) counts a limit of -1, which means none, on to -2.
  `Sessions.ShownNumber` shows that this never changes what is shown.
- A catalogue without sets cannot be read back (`adv_cmds/gencat/genlib.c:422`), although it can be
  written; `CatalogueFile.RoundTrip` states for every old file that the catalogue comes back if and only
  if it has a set.

## Model

| member | source | states |
|---|---|---|
| `MigLayout.SizeDelta` | bootstrap_cmds/migcom.tproj/routine.c:1802-1843 | rtSizeDelta: the printed difference between the two running sizes turns sizeof of the struct into the minimum size, from any word-aligned start (so the request header size used for replies does no harm) |
| `MigLayout.PaddingCompletesWord` | bootstrap_cmds/migcom.tproj/mig_machine.h:7-8 | machine_padding completes exactly the last word |
| `MigLayout.WordSized` | bootstrap_cmds/migcom.tproj/mig_machine.h:4-8 | on the sizes that occur, machine_alignment is plain addition and keeps them word-aligned |
| `MigLayout.ArrayBytesAreElementBytes` | bootstrap_cmds/migcom.tproj/type.c:175-216 | bytes computed from the bits of a whole array are those of its whole-byte elements if and only if the rounding of all elements adds up to less than one byte; MigTypes.PrintsExactly uses it for every declared array |
| `MigLayout.ShiftedOffset` | bootstrap_cmds/migcom.tproj/user.c:1242-1274 | after any number of arrays, moved pointer plus declared offset is the tight position, and position plus remaining heads is the minimum plus what has grown |
| `MigLayout.PositionWithinStruct` | bootstrap_cmds/migcom.tproj/utils.c:410-445 | with no value oversized the tight position never passes the declared offset, so every shift is backwards |
| `MigLayout.OversizedExactly` | bootstrap_cmds/migcom.tproj/user.c:1117-1187 | an array is oversized if and only if the client refuses it; a string whose elements are its characters never is; a string that is itself the one element is unless it is empty |
| `MigTypes.IpcType.CalculateSizeInfo` | bootstrap_cmds/migcom.tproj/type.c:175-216 | the sizes of a type in 32-bit arithmetic: bytes, padding and the part of the minimum size, in the body or as descriptors |
| `MigTypes.IpcType.Copy` | bootstrap_cmds/migcom.tproj/type.c:410-422 | a copy has all sizes of the old type, and the old type as its element |
| `MigTypes.ShortDecl` | bootstrap_cmds/migcom.tproj/type.c:376-408 | a simple type, or the error for one without a size |
| `MigTypes.VarArrayDecl` | bootstrap_cmds/migcom.tproj/type.c:474-520 | a varying array, bounded or not, in the body or of what is out of line, and its errors |
| `MigTypes.ArrayDecl` | bootstrap_cmds/migcom.tproj/type.c:526-553 | a fixed array and its errors |
| `MigTypes.StructDecl` | bootstrap_cmds/migcom.tproj/type.c:578-591 | a struct and its errors |
| `MigTypes.CStringDecl` | bootstrap_cmds/migcom.tproj/type.c:597-614 | a C string, fixed or varying |
| `MigTypes.IpcType.Point` | bootstrap_cmds/migcom.tproj/type.c:559-572 | a pointer changes the type it is given, or is an error |
| `MigTypes.SizesStayValid` | bootstrap_cmds/migcom.tproj/type.c:410-422 | for every accepted declaration the sizes fit the other fields, after a copy too |
| `MigTypes.DeclaredFields` | bootstrap_cmds/migcom.tproj/type.c:474-614 | for every accepted declaration in the body, itNumber is the number of items modulo 2^32, and the flags are those of the declaration |
| `MigTypes.DeclaredSize` | bootstrap_cmds/migcom.tproj/type.c:175-216 | the size computed is the size meant if and only if the product of number and bits, plus seven, does not wrap |
| `MigTypes.PrintsExactly` | bootstrap_cmds/migcom.tproj/server.c:920-976 | the constants emitted for a declared type (element size, count limit, area, padding, string length, minimum) are those of the field it means, and the field is well formed, if and only if no 32-bit product wraps, no array or string is empty, and rounding elements to bytes adds less than a byte to an array |
| `MigTypes.DescriptorBytes` | bootstrap_cmds/migcom.tproj/type.c:202-216 | a port or out-of-line type takes twelve bytes for each of its descriptors, at least one, and no padding, if and only if that does not wrap |
| `MigTypes.OversizedByName` | bootstrap_cmds/migcom.tproj/type.c:454-466 | for every sound declaration, a value is oversized if and only if it is an array the client refuses, or its type is another name for a varying string of more than one character and the string is not empty |
| `MigTypes.DeclaredRoundTrip` | bootstrap_cmds/migcom.tproj/user.c:1117-1217 | a request whose arguments have sound types calls the procedure, with the client's values, if and only if no array is too large and every string whose type is another name for a varying string is empty |
| `MigTypes.AliasRunsOver` | bootstrap_cmds/migcom.tproj/type.c:454-466 | another name for c_string[*:100] and the string abc: the size sent is beyond the struct, and the procedure is not called |
| `MigMessage.CheckVariable` | bootstrap_cmds/migcom.tproj/routine.c:1511-1566 | the one-pass numbering gives each argument the number of variable arguments before it, the number of arrays, and the last position |
| `MigMessage.ArgSizeIsAligned` | bootstrap_cmds/migcom.tproj/server.c:862-888 | the emitted 32-bit size expression is the word-aligned byte count whenever that fits 32 bits |
| `MigMessage.ParsesIsSizeEquation` | bootstrap_cmds/migcom.tproj/server.c:920-976 | the reference parser accepts if and only if every count is within its maximum and the size is the minimum plus the aligned element bytes |
| `MigMessage.RefusalIsUnparsable` | bootstrap_cmds/migcom.tproj/server.c:890-918 | on the running size, the emitted comparisons refuse exactly what cannot be parsed from this field on, and on the accepted path no 32-bit subtraction wraps |
| `MigMessage.CheckMsgSize` | bootstrap_cmds/migcom.tproj/server.c:920-976 | the code for one array: refusal means unparsable, acceptance leaves the running size reduced by exactly this array and its size in the delta; the count read lies inside the message |
| `MigMessage.AdjustPointer` | bootstrap_cmds/migcom.tproj/server.c:1122-1138 | the pointer computed from the counts alone leads to the field that needs it, and the earlier pointers stay right |
| `MigMessage.CheckSizes` | bootstrap_cmds/migcom.tproj/server.c:2541-2558 | for every byte buffer, the running-subtraction check succeeds if and only if the reference parser does, and each saved pointer plus declared offset is where the parser finds the field |
| `MigMessage.CarriedIsParsed` | bootstrap_cmds/migcom.tproj/server.c:1122-1138 | a message that carries in-bounds values tightly and nothing more is parsed from every field on |
| `MigMessage.CarriedAtParsed` | bootstrap_cmds/migcom.tproj/server.c:1122-1138 | the receiver, which knows only the counts in the message, finds every field where the sender put it |
| `MigMessage.OversizedIsRefused` | bootstrap_cmds/migcom.tproj/server.c:920-976 | once a message holds an oversized count behind tight fields, no bytes behind that count and no message size make the parser accept it |
| `MigMessage.LastVariable` | bootstrap_cmds/migcom.tproj/routine.c:1511-1566 | an array numbered as the last position is the last field, which is what the emitters test for |
| `MigRequest.PackField` | bootstrap_cmds/migcom.tproj/user.c:1118-1187 | packing one argument at its shifted place makes it readable there and changes no byte outside its own struct area, padding included |
| `MigRequest.PackVariable` | bootstrap_cmds/migcom.tproj/user.c:1118-1187 | data, zeroed padding at the unshifted maximum and the count do not overwrite one another |
| `MigRequest.PadsAreZero` | bootstrap_cmds/migcom.tproj/user.c:1182-1185 | the padding behind the declared maximum of an argument, fixed or varying, and the offset word of a string are zero |
| `MigRequest.AdjustMsgSize` | bootstrap_cmds/migcom.tproj/user.c:1242-1299 | the statement emitted behind an array adds its 32-bit size to minimum plus everything grown so far and moves the pointer by size minus area; unless the value is oversized nothing wraps and the pointer is the next shift |
| `MigRequest.PackArg` | bootstrap_cmds/migcom.tproj/user.c:1318-1363 | one argument at its declared offset from the moved pointer is carried beside those before it |
| `MigRequest.PackArgs` | bootstrap_cmds/migcom.tproj/user.c:1318-1363 | packs all arguments if and only if none is oversized; then all are carried at their tight positions, the final size is that of exactly those arguments and never exceeds the struct; if the first oversized one is an array the client refuses, if it is a string the size and the next address that come of it are stated; the header is untouched |
| `MigRequest.MachSizes` | bootstrap_cmds/migcom.tproj/server.c:501-519 | the sizes of the smallest messages and of mig_reply_error_t |
| `MigRequest.RunsOverIsRefused` | bootstrap_cmds/migcom.tproj/server.c:920-976 | when a string has run over, nothing in front of its count is written again, and the server refuses every message that keeps those bytes |
| `MigRequest.SizeWithinStruct` | bootstrap_cmds/migcom.tproj/routine.c:1786-1800 | the message is at most as large as the struct, and as large if and only if every array fills its area |
| `MigRequest.MaximalCountsFill` | bootstrap_cmds/migcom.tproj/routine.c:1786-1800 | with every count maximal the message is as large as the struct |
| `MigRequest.CheckHead` | bootstrap_cmds/migcom.tproj/server.c:702-747 | the emitted test on complex bit, descriptor count and size range, with the alternative for a RetCode argument, exactly |
| `MigRequest.CheckTexts` | bootstrap_cmds/migcom.tproj/server.c:2316-2389 | the terminator check reads inside the message and succeeds if and only if every C string, varying or not, ends within its declared length and the message; the variant for kernel servers never refuses |
| `MigRequest.CheckRequest` | bootstrap_cmds/migcom.tproj/server.c:2497-2595 | accepts exactly the well-formed messages, for every deliverable byte buffer; in a kernel server also those with unterminated strings |
| `MigRequest.Extract` | bootstrap_cmds/migcom.tproj/server.c:1009-1081 | after acceptance every value read through its pointer is the one at the position the parser finds, inside the message; except in a kernel server no string runs on behind the message |
| `MigRequest.EndedIsNoRunaway` | bootstrap_cmds/migcom.tproj/server.c:2316-2389 | a string that passes the terminator check ends inside the message |
| `MigRequest.KernelRunaway` | bootstrap_cmds/migcom.tproj/server.c:2363-2372 | a message that only a kernel server accepts, whose string runs on behind it |
| `MigRequest.CarriedValue` | bootstrap_cmds/migcom.tproj/server.c:1009-1081 | what is found where a value is carried is that value, a string cut to its maximum less the terminator |
| `MigRequest.CarriedText` | bootstrap_cmds/migcom.tproj/server.c:1009-1081 | the characters before the NUL, in a varying or a fixed array, are those of the string sent |
| `MigRequest.DeliveredExactly` | bootstrap_cmds/migcom.tproj/user.c:1118-1187 | blocks and arrays are delivered as they are, and of a string as many characters as leave room for the NUL |
| `MigRequest.CarriedIsAccepted` | bootstrap_cmds/migcom.tproj/server.c:2497-2595 | a message that carries in-bounds values is well-formed and holds those values for the receiver |
| `MigRequest.Send` | bootstrap_cmds/migcom.tproj/user.c:3032-3131 | the client stub up to the send, on a buffer with arbitrary contents |
| `MigRequest.Serve` | bootstrap_cmds/migcom.tproj/server.c:2679-2706 | the server stub on any message: an error request calls the procedure with its code alone, and otherwise exactly the well-formed messages call it with what they hold |
| `MigRequest.RequestRoundTrip` | bootstrap_cmds/migcom.tproj/server.c:2497-2595 | client packing followed by server check and extraction: the procedure is called if and only if no value is oversized, and then with the client's values; if the first oversized value is an array the client refuses; if it is a string the client runs over and the server refuses every message that can follow |
| `MigRequest.RetCodeRoundTrip` | bootstrap_cmds/migcom.tproj/user.c:487-499 | with a RetCode argument: a code reaches the procedure unchanged and alone; without one the arguments do, if and only if none is oversized |
| `MigRequest.DescriptorsHoldError` | bootstrap_cmds/migcom.tproj/user.c:487-499 | a complex request has room for an error message, because it starts with a descriptor |
| `MigReply.CountText` | bootstrap_cmds/migcom.tproj/server.c:2035-2061 | the count taken from a string stored directly by the procedure is the string's length with terminator |
| `MigReply.DirectFrame` | bootstrap_cmds/migcom.tproj/routine.c:1511-1566 | packing an argument leaves alone the Out values that the procedure stored behind it, because values behind an array wait in locals |
| `MigReply.LocalBehindArrays` | bootstrap_cmds/migcom.tproj/routine.c:1511-1566 | an Out argument waits in a local if and only if it is marked or some argument before it is an array |
| `MigReply.ReplyField` | bootstrap_cmds/migcom.tproj/server.c:2184-2232 | one argument of the reply: packed from a local, or already in place |
| `MigReply.AdjustReply` | bootstrap_cmds/migcom.tproj/server.c:2120-2154 | behind an array the size goes to the header if it is the only array and to a running size otherwise; either way it is minimum plus grown, or for an oversized string the 32-bit sum that the client makes too |
| `MigReply.FinishReply` | bootstrap_cmds/migcom.tproj/server.c:2160-2178 | the same for a last array with nothing behind it |
| `MigReply.NothingMoved` | bootstrap_cmds/migcom.tproj/server.c:663-682 | where no code is emitted to restore the pointer, it has not moved |
| `MigReply.PackReply` | bootstrap_cmds/migcom.tproj/server.c:2184-2232 | unless a string is oversized, whichever statement sets msgh_size, it is the size of exactly the Out values, all carried at their tight positions, and the pointer is back at the start; otherwise the size and the next address that come of the first such string |
| `MigCall.ReplyHoldsError` | bootstrap_cmds/migcom.tproj/server.c:501-519 | every reply struct has room for an error reply |
| `MigCall.IdentityOk` | bootstrap_cmds/migcom.tproj/user.c:1370-1429 | the identity check lets through exactly the typed replies and the error replies |
| `MigCall.CheckReply` | bootstrap_cmds/migcom.tproj/user.c:2843-2975 | for every reply: a dead server or a mismatch for another id; Out values are extracted if and only if the reply is a well-formed data reply; a code is returned if and only if the reply has one of the two forms that carry one, and KERN_SUCCESS only to a routine without Out arguments; everything else is a type error, which is spelled out over port, complex bit, size, code and parsing |
| `MigCall.MakeReply` | bootstrap_cmds/migcom.tproj/server.c:1441-1454 | a failing procedure leaves an error reply with its code, a successful one a reply that carries its Out values if and only if no string is oversized |
| `MigCall.DataReply` | bootstrap_cmds/migcom.tproj/user.c:2004-2023 | a reply made from Out values of which none is oversized passes the client's check and holds those values |
| `MigCall.RunsOverIsNoData` | bootstrap_cmds/migcom.tproj/user.c:2843-2975 | from no reply that keeps what an overrunning server has counted are Out values extracted |
| `MigCall.ReplyRoundTrip` | bootstrap_cmds/migcom.tproj/user.c:2843-2975 | for every two-way routine: a non-success code reaches the client unchanged; after success the client extracts the server's values if and only if no string is oversized, and otherwise nothing the server can send is extracted |
| `MigInOut.ClientCount` | bootstrap_cmds/migcom.tproj/user.c:1301-1312 | the count sent is the smaller of the caller's room and the maximum |
| `MigInOut.ServerCount` | bootstrap_cmds/migcom.tproj/server.c:1083-1120 | the procedure's count starts as the smaller of the maximum and what was sent |
| `MigInOut.FillCounts` | bootstrap_cmds/migcom.tproj/user.c:1347-1349 | each limited array has its own word of the request, and nothing else changes |
| `MigInOut.CopyOut` | bootstrap_cmds/migcom.tproj/user.c:1712-1760 | extraction succeeds if and only if no array is beyond its limit; otherwise it ends at the first such array, with the room filled and the true count reported |
| `MigInOut.InOutRoundTrip` | bootstrap_cmds/migcom.tproj/user.c:1721-1760 | across both directions, whatever the procedure produces: it is called if and only if no value of the request is oversized; it is given the smaller of room and maximum; unless a string of the reply is oversized the caller gets MIG_ARRAY_TOO_LARGE if and only if some array is beyond its room, which is if and only if it is beyond the count that the procedure was given |
| `MigArguments.AddedRank` | bootstrap_cmds/migcom.tproj/type.c:616-663 | an implicit argument has strictly smaller rank than the one it is added for, and rank zero gets none |
| `MigArguments.GivenOwes` | bootstrap_cmds/migcom.tproj/routine.c:520-617 | what an argument is owed, on its flags and its type: dealloc[] and nothing else adds a dealloc argument, for a port or out-of-line data only; CountInOut counts for in-line varying Out arrays only |
| `MigArguments.GivenExpands` | bootstrap_cmds/migcom.tproj/routine.c:1110-1155 | all that one argument becomes, on its flags and its type: arg, poly, count-in-out, count or sub-counts with their count, dealloc |
| `MigArguments.AddedExpands` | bootstrap_cmds/migcom.tproj/routine.c:1110-1155 | expanding the arguments added by one iteration gives the documented order: poly, count-in-out, count or sub-count and its count, dealloc |
| `MigArguments.NewIsNew` | bootstrap_cmds/migcom.tproj/routine.c:1110-1155 | an implicit argument is never added twice |
| `MigArguments.StepExpands` | bootstrap_cmds/migcom.tproj/routine.c:1110-1155 | an iteration that inserts behind the current argument leaves the final expansion of what is still to be walked unchanged |
| `MigArguments.MasterOfSubCount` | bootstrap_cmds/migcom.tproj/routine.c:954-980 | only given arguments and sub-counts get counts, and a sub-count's master has no count of its own |
| `MigArguments.ExpandedKeepsGiven` | bootstrap_cmds/migcom.tproj/routine.c:1110-1155 | without its implicit arguments the final list is the original one in its order |
| `MigArguments.Arguments.AddCount` | bootstrap_cmds/migcom.tproj/routine.c:954-980 | rtAddCountArg: a sub-count for multiple descriptors with varying elements, otherwise a count, reachable also from the parent of a sub-count |
| `MigArguments.Arguments.AddCountInOut` | bootstrap_cmds/migcom.tproj/routine.c:1010-1035 | rtAddCountInOutArg: the two counts lead to each other, unless the argument has no count of its own, where the source follows a null pointer |
| `MigArguments.Arguments.AddPoly` | bootstrap_cmds/migcom.tproj/routine.c:1038-1051 | rtAddPolyArg: inserted behind its argument and linked from it |
| `MigArguments.Arguments.AddDealloc` | bootstrap_cmds/migcom.tproj/routine.c:1084-1095 | rtAddDeallocArg: inserted behind its argument and linked from it |
| `MigArguments.Arguments.CheckArgument` | bootstrap_cmds/migcom.tproj/routine.c:1136-1146 | one iteration inserts exactly what the argument is owed, the last insertion first, unless it follows a null pointer |
| `MigArguments.AliasFollowsNull` | bootstrap_cmds/migcom.tproj/type.c:410-422 | a CountInOut argument whose type is another name for an array of ports makes the pass follow a null pointer; with the array itself it does not |
| `MigArguments.Arguments.CheckRoutineArgs` | bootstrap_cmds/migcom.tproj/routine.c:1110-1155 | for every list of arguments: the loop ends although it inserts into the list it walks; it follows a null pointer if and only if some given argument is CountInOut with sub-counts; otherwise the result is the expansion of the original list, which MigArguments.GivenExpands spells out, without duplicates, and all pointers are set |
| `MigDispatch.NumberRoutines` | bootstrap_cmds/migcom.tproj/routine.c:64-85 | numbers grow along the statements, and each number stands for the routine or skip declared at that place |
| `MigDispatch.SlotsCount` | bootstrap_cmds/migcom.tproj/routine.c:64-85 | every routine and every skip takes a number, and nothing else does |
| `MigDispatch.RoutineEntries` | bootstrap_cmds/migcom.tproj/server.c:259-303 | the routine table has rtNumber entries, routine n at index n and empty entries elsewhere |
| `MigDispatch.SymbolEntries` | bootstrap_cmds/migcom.tproj/server.c:241-257 | the symbol table has rtNumber entries, with name, message id as %d prints it and stub of routine n at index n and empty entries elsewhere |
| `MigDispatch.StubsDiffer` | bootstrap_cmds/migcom.tproj/server.c:291 | stub names begin with _X and differ for different routines |
| `MigDispatch.Demultiplex` | bootstrap_cmds/migcom.tproj/server.c:521-539 | calls the stub in the table if and only if base plus number of routines is within an int and the id stands for an entry with a stub; otherwise a bad id |
| `MigDispatch.FindRoutine` | bootstrap_cmds/migcom.tproj/server.c:558-567 | finds the entry that an id stands for, also where the subtraction or the id itself wraps |
| `MigDispatch.Serve` | bootstrap_cmds/migcom.tproj/server.c:521-567 | for every list of declarations, every base and every id: lookup and symbol table agree with the declarations; the demultiplexer agrees with them if and only if base plus number of routines is within an int, and refuses everything otherwise |
| `MigDispatch.CallRoutine` | bootstrap_cmds/migcom.tproj/user.c:363 | the id that a client stub sends stands for its routine, reaches it if and only if base plus number of routines is within an int, and the reply carries the id that the client checks for |
| `MigTypeList.FirstIsLatest` | bootstrap_cmds/migcom.tproj/type.c:83-93 | the node of a name nearest the front is the one inserted last |
| `MigTypeList.FrontedShadows` | bootstrap_cmds/migcom.tproj/type.c:90-93 | moving such a node to the front changes what no name means and duplicates nothing |
| `MigTypeList.InsertShadows` | bootstrap_cmds/migcom.tproj/type.c:105-111 | a new node shadows older ones of its name and no others |
| `MigTypeList.TypeList.Insert` | bootstrap_cmds/migcom.tproj/type.c:105-111 | itInsert: the list stays a chain through its nodes, with the new one in front and its name meaning it |
| `MigTypeList.TypeList.LookUp` | bootstrap_cmds/migcom.tproj/type.c:83-99 | itLookUp: returns the latest node of the name or null, moves it to the front, keeps the same nodes in one chain and every name's meaning |
| `MigTypeList.Run` | bootstrap_cmds/migcom.tproj/type.c:83-111 | every interleaving of insertions and look-ups: a look-up returns the node of the latest earlier declaration of its name, or null if there is none |
| `MigTypeList.TypeList.MoveToFront` | bootstrap_cmds/migcom.tproj/type.c:90-93 | the three pointer assignments, at the head and inside the list |
| `Base64.Ntop` | basic_cmds/uudecode/base64.c:131-189 | b64_ntop: succeeds if and only if the target is larger than four characters per started group of three bytes; then it holds the canonical encoding, ended by a NUL; Base64.EncodedAt and Base64.GroupIsNumber say which characters that is |
| `Base64.DigitIsLetter` | basic_cmds/uudecode/base64.c:64-66 | the digit of every value is the character at that place of the alphabet |
| `Base64.SextetIsIndex` | basic_cmds/uudecode/base64.c:193-314 | the value of a character is its place in the alphabet; characters outside have none |
| `Base64.GroupIsNumber` | basic_cmds/uudecode/base64.c:131-189 | the characters of a group are the base-64 digits of the number that its bytes make, with = for every missing byte |
| `Base64.EncodedAt` | basic_cmds/uudecode/base64.c:131-189 | characters 4k to 4k+3 of the encoding are the group of bytes 3k to 3k+2 |
| `Base64.ParseEncoded` | basic_cmds/uudecode/base64.c:197-317 | the decoder's state machine, from the start of any group, reads the encoding of x as x |
| `Base64.ParsedIsEncoded` | basic_cmds/uudecode/base64.c:265-314 | whatever the state machine accepts is the canonical encoding of its result: right padding, zero slop bits |
| `Base64.EncodeInjective` | basic_cmds/uudecode/base64.c:131-189 | different bytes have different encodings |
| `Base64.CheckPadding` | basic_cmds/uudecode/base64.c:270-314 | what may follow the first pad character in each state |
| `Base64.StoreSextet` | basic_cmds/uudecode/base64.c:220-262 | storing six bits into the target, by state, with the room test of each state |
| `Base64.Pton` | basic_cmds/uudecode/base64.c:197-317 | b64_pton: success with x means that the text without whitespace is exactly the encoding of x; failure means that it is no encoding, or one that needs more room than the target has |
| `Base64Stream.EncodeLines` | basic_cmds/uuencode/uuencode.c:147-172 | base64_encode writes the encoding broken into non-empty lines, of 76 characters each but the last |
| `Base64Stream.EndsWithExactly` | basic_cmds/uudecode/uudecode.c:352-368 | checkend: behind the end mark there are only blanks, tabs, carriage returns and newlines |
| `Base64Stream.Fgets` | basic_cmds/uudecode/uudecode.c:340-350 | a line up to and including its newline, or as much as the buffer holds |
| `Base64Stream.FindCut` | basic_cmds/uudecode/uudecode.c:467-480 | the cut is the last place at which the number of Base64 characters is a multiple of four |
| `Base64Stream.CountedAreDigits` | basic_cmds/uudecode/uudecode.c:470-480 | the characters that the scan counts are the digits and = |
| `Base64Stream.PtonMeaning` | basic_cmds/uudecode/uudecode.c:485-489 | what b64_pton returns for a buffer is what the buffer means: the bytes whose encoding it is, if they fit the target |
| `Base64Stream.NextPiece` | basic_cmds/uudecode/uudecode.c:457-490 | the piece up to the cut encodes the bytes between the groups already decoded and those before the cut; the leftover is less than a group |
| `Base64Stream.AtEnd` | basic_cmds/uudecode/uudecode.c:448-492 | at the end of the body nothing is left over |
| `Base64Stream.DecodeLines` | basic_cmds/uudecode/uudecode.c:448-492 | for every text, the bytes written and the way of ending are those of the reference stream: lines joined to the leftover, cut, and decoded by meaning |
| `Base64Stream.StreamExactlyWhenGroupsFit` | basic_cmds/uudecode/uudecode.c:448-492 | for every byte string, every way of putting whitespace into its encoding and any text behind the "====" line, blanks on that line included: if each group of four is complete within 1023 characters, the stream outputs the bytes and ends successfully; if one is not, it is stuck with a proper beginning written |
| `Base64Stream.TruncatedIsDecoded` | basic_cmds/uudecode/uudecode.c:457-491 | without the end line the bytes are output too, and the file is reported short unless -r is given |
| `Base64Stream.FullIsFixed` | basic_cmds/uudecode/uudecode.c:457-490 | with a full leftover a pass of the loop reads, cuts and writes nothing |
| `Base64Stream.StuckExactly` | basic_cmds/uudecode/uudecode.c:457-490 | on any text, the outcome Stuck is exactly that the loop of the source never ends |
| `Base64Stream.DenseFits` | basic_cmds/uudecode/uudecode.c:448-492 | bodies without 341 whitespace characters in a row fit, whatever their lines and line ends |
| `Base64Stream.LinesFit` | basic_cmds/uudecode/uudecode.c:448-492 | bodies of non-empty lines fit, whatever the lengths of the lines |
| `Base64Stream.StuckExample` | basic_cmds/uudecode/uudecode.c:457-465 | an encoding of one byte on which the decoder is stuck with nothing written |
| `Base64Stream.RoundTrip` | basic_cmds/uuencode/uuencode.c:147-172 | uuencode -m followed by uudecode -m returns the bytes |
| `Uucode.EncodeGroup` | basic_cmds/uuencode/uuencode.c:196-211 | the four characters of a group are the same whether char is signed or not |
| `Uucode.PrintedIsLetter` | basic_cmds/uuencode/uuencode.c:142 | the printed value is the character at that place of the traditional alphabet, with a backquote for zero |
| `Uucode.QuadIsNumber` | basic_cmds/uuencode/uuencode.c:196-211 | the characters of a group are the base-64 digits of the number that its bytes make |
| `Uucode.EncodeChunk` | basic_cmds/uuencode/uuencode.c:186-214 | a data line: length, groups with zero padding, newline; what the buffer held behind the chunk does not show |
| `Uucode.EncodeText` | basic_cmds/uuencode/uuencode.c:177-219 | encode behind the "begin" line: lines of at most 45 bytes and the terminator |
| `Uucode.FullLines` | basic_cmds/uuencode/uuencode.c:185-215 | 45 bytes make a line of 62 characters that starts with M |
| `Uucode.LastLine` | basic_cmds/uuencode/uuencode.c:185-215 | a last shorter line has its length in front and four characters for every started group |
| `Uucode.DecodeLine` | basic_cmds/uudecode/uudecode.c:399-436 | a line is decoded if and only if the characters that its length needs are in range, and then to the bytes they stand for; otherwise what precedes the first such character is written |
| `Uucode.InRangeExactly` | basic_cmds/uudecode/uudecode.c:386-387 | characters from space to backquote are in range, and exactly these two stand for zero |
| `Uucode.LineDecodes` | basic_cmds/uuencode/uuencode.c:186-214 | every character of a data line is between 0x21 and 0x60, the line is not taken for the terminator, and it decodes to its bytes for signed and unsigned char |
| `Uucode.SpacedLineDecodes` | basic_cmds/uudecode/uudecode.c:386-431 | a data line in which spaces stand for zeros decodes to the same bytes |
| `Uucode.DecodeText` | basic_cmds/uudecode/uudecode.c:370-446 | for every text, by the lines that fgets cuts: the way of ending follows from the first line that is no data line, and the output is the data lines before it and the beginning of a line out of range |
| `Uucode.VerdictExactly` | basic_cmds/uudecode/uudecode.c:370-446 | finished if and only if the first line that is no data line has length zero and the next one is an end line; out of range if and only if it has another length |
| `Uucode.BodyIsRead` | basic_cmds/uudecode/uudecode.c:370-446 | the lines of an encoded body are data lines that hold its bytes, whatever follows |
| `Uucode.EncodedIsDecoded` | basic_cmds/uudecode/uudecode.c:370-446 | on what encode writes for x, uu_decode outputs x and finds the end line |
| `Uucode.TruncatedIsDecoded` | basic_cmds/uudecode/uudecode.c:370-446 | without the terminator the bytes are output too, and the file is reported short unless -r is given |
| `Uucode.RoundTrip` | basic_cmds/uuencode/uuencode.c:177-219 | uuencode followed by uudecode returns the bytes, also between machines whose chars differ in signedness |
| `SortedList.NotBeyond` | adv_cmds/gencat/genlib.c:660-679 | the early exit on a larger id misses no entry |
| `SortedList.EarlyExitExactly` | adv_cmds/gencat/genlib.c:660-679 | among different ids, a search with the early exit finds every one if and only if they are sorted |
| `SortedList.WithIncreasing` | adv_cmds/gencat/genlib.c:660-679 | insertion before the first larger id keeps ids strictly increasing |
| `SortedList.CellsWith` | adv_cmds/gencat/genlib.c:671-675 | relinking the neighbours makes the longer list well linked in both directions |
| `SortedList.CellsWithout` | adv_cmds/gencat/genlib.c:770-774 | the same for removal |
| `SortedList.List.Seek` | adv_cmds/gencat/genlib.c:660-665 | finds the first node that is not smaller |
| `SortedList.List.InsertBefore` | adv_cmds/gencat/genlib.c:665-678 | insertion before a node |
| `SortedList.List.Append` | adv_cmds/gencat/genlib.c:680-695 | insertion at the end, into an empty list or not |
| `SortedList.List.Unlink` | adv_cmds/gencat/genlib.c:770-774 | removal of a node at either end or inside |
| `SortedList.List.FreeAll` | adv_cmds/gencat/genlib.c:763-767 | the loop over the messages of a deleted set frees each exactly once, and reads a freed one if and only if there is any |
| `Catalogue.Cat.AddSet` | adv_cmds/gencat/genlib.c:649-698 | MCAddSet: as a map, adds an empty set if there was none and makes it current; an id that is not positive is an error |
| `Catalogue.Cat.AddMsg` | adv_cmds/gencat/genlib.c:700-753 | MCAddMsg: as a map, gives the message its text in the current set and changes nothing else; the error cases |
| `Catalogue.Cat.FreeMessages` | adv_cmds/gencat/genlib.c:761-767 | the messages freed are those of the set that is found |
| `Catalogue.Cat.DelSet` | adv_cmds/gencat/genlib.c:755-781 | MCDelSet: as a map, removes the set; a set that is not there is left to a warning; the loop that frees the messages reads a freed one if and only if the set is there and has a message |
| `Catalogue.Cat.DelMsg` | adv_cmds/gencat/genlib.c:783-807 | MCDelMsg: as a map, removes the message from the current set |
| `Catalogue.Perform` | adv_cmds/gencat/genlib.c:649-807 | every operation takes a heap that represents a state to one that represents the next state, and reads freed messages exactly when it deletes a set that has some |
| `Catalogue.ForbiddenIsDangling` | adv_cmds/gencat/genlib.c:755-781 | the operations that runs must not contain are exactly those that would go through a freed set |
| `Catalogue.UseAfterDelete` | adv_cmds/gencat/genlib.c:755-781 | the shortest such run: a set added and deleted, then a message added |
| `Catalogue.Cat.AppendSet` | adv_cmds/gencat/genlib.c:425-434 | a set that was read is linked behind the others |
| `Gencat.LoadMessages` | adv_cmds/gencat/genlib.c:444-462 | the messages of a set, each linked behind the last, form a well-linked list that holds them |
| `Gencat.Load` | adv_cmds/gencat/genlib.c:421-467 | what was read becomes a well-linked catalogue with the same contents |
| `Gencat.Walk` | adv_cmds/gencat/genlib.c:604-646 | along the links, the catalogue in sorted order |
| `Gencat.Run` | adv_cmds/gencat/genlib.c:649-807 | every sequence of operations that uses no deleted set, from any catalogue that was read or from an empty one, leaves well-linked, strictly sorted lists that hold the map of maps, and reports exactly whether error() was called |
| `Gencat.AfterProper` | adv_cmds/gencat/genlib.c:649-807 | operations make only ids that the file format keeps |
| `Gencat.MadeIdsArePositive` | adv_cmds/gencat/genlib.c:649-807 | from an empty catalogue, every id is a positive int |
| `Gencat.EditFile` | adv_cmds/gencat/gencat.c:105-133 | on any file that cannot be read, or whose ids are sorted: one that cannot be read stays as it is; if the edits succeed, the new file holds exactly the edited map and is read back as it if a set is left; if one fails, the file is empty and the old catalogue is lost |
| `Gencat.WrittenIsEditable` | adv_cmds/gencat/gencat.c:105-133 | a file that was written can be edited again |
| `CatalogueFile.SetBack` | adv_cmds/gencat/genlib.c:604-612 | a set record read back is the one written |
| `CatalogueFile.Big32IsBigEndian` | adv_cmds/gencat/genlib.c:569-602 | 32-bit fields of the file are in network byte order |
| `CatalogueFile.Big64IsBigEndian` | adv_cmds/gencat/genlib.c:604-646 | so are 64-bit offsets |
| `CatalogueFile.WriteTexts` | adv_cmds/gencat/genlib.c:614-621 | string data and the offset of each message |
| `CatalogueFile.WriteRecords` | adv_cmds/gencat/genlib.c:626-632 | message headers with those offsets |
| `CatalogueFile.WriteSet` | adv_cmds/gencat/genlib.c:604-646 | a set written, and its record patched afterwards, holds all its parts where its offsets say; nothing before it changes |
| `CatalogueFile.WriteCat` | adv_cmds/gencat/genlib.c:569-647 | MCWriteCat leaves a file that holds the catalogue, over any previous contents |
| `CatalogueFile.StoredHead` | adv_cmds/gencat/genlib.c:569-602 | the bytes of the header that is written: magic, versions, byte order, number of sets and the place of the first |
| `CatalogueFile.DupStr` | adv_cmds/gencat/genlib.c:461 | the string at an offset of the data, or none if it does not end inside |
| `CatalogueFile.ReadMessages` | adv_cmds/gencat/genlib.c:444-462 | for every file, the messages that the records lead to, invalid records passed over, or the error |
| `CatalogueFile.ReadSet` | adv_cmds/gencat/genlib.c:421-464 | for every file, the next valid record and its messages |
| `CatalogueFile.ReadSets` | adv_cmds/gencat/genlib.c:421-467 | for every file, the chain of sets from a start, or the error, or that the loop never ends |
| `CatalogueFile.EndlessExactly` | adv_cmds/gencat/genlib.c:421-467 | for every file, the outcome Endless is exactly that the loop of the source, which remembers nothing, goes on for every number of iterations |
| `CatalogueFile.SelfLinkedIsEndless` | adv_cmds/gencat/genlib.c:465-466 | a file on which the loop never ends: one set whose next offset is its own |
| `CatalogueFile.ReadCat` | adv_cmds/gencat/genlib.c:394-468 | for every file, the reading that its bytes determine, or the error |
| `CatalogueFile.HasExactly` | adv_cmds/gencat/genlib.c:417 | a flag is set if and only if the binary digit at its place is one |
| `CatalogueFile.HeadIsChecked` | adv_cmds/gencat/genlib.c:414-419 | on the bytes of any file: too short or another magic is corrupt, and a wrong major version or a missing byte-order flag is reported if and only if what comes before it is right |
| `CatalogueFile.TextFound` | adv_cmds/gencat/genlib.c:461 | a NUL-free text stored with its NUL is found whole |
| `CatalogueFile.MessagesFound` | adv_cmds/gencat/genlib.c:444-462 | from any record of a written set on, the messages that are left are found, with their ids and texts |
| `CatalogueFile.SetsFound` | adv_cmds/gencat/genlib.c:421-467 | from any written set on, the sets that are left are found, at strictly increasing offsets |
| `CatalogueFile.StoredIsRead` | adv_cmds/gencat/genlib.c:394-468 | a file that holds a catalogue with sets is read as exactly that catalogue; one without sets and with nothing behind its header is reported corrupt |
| `CatalogueFile.NeverLoadsNothing` | adv_cmds/gencat/genlib.c:421-467 | no file is read as a catalogue without sets |
| `CatalogueFile.RoundTrip` | adv_cmds/gencat/genlib.c:569-647 | writing over any file and reading again rebuilds the same catalogue, sets without messages included, if and only if there is a set; without one, on a file too short for a set, it is reported corrupt |
| `Sessions.Want` | adv_cmds/last/last.c:248-292 | want: whether some argument matches; what that means for each kind of argument is stated by the next four members |
| `Sessions.WantedByOne` | adv_cmds/last/last.c:248-292 | several arguments select what one of them selects, and no argument selects everything |
| `Sessions.UserWanted` | adv_cmds/last/last.c:282-289 | a user argument selects exactly the records of that user, and reboot and shutdown also boots and shutdowns |
| `Sessions.HostWanted` | adv_cmds/last/last.c:260-263 | a host argument selects exactly the records of that host, without regard to case |
| `Sessions.TtyWanted` | adv_cmds/last/last.c:264-281 | a terminal argument selects exactly the records of that line; of process records all ftp or uucp lines |
| `Sessions.DisplayedExactly` | adv_cmds/last/last.c:162-206 | which records can have a line |
| `Sessions.CauseIsNearest` | adv_cmds/last/last.c:160-238 | crmsg names the very boot or shutdown that ended the session |
| `Sessions.EndingExactly` | adv_cmds/last/last.c:160-238 | on the records: a session is ended by the nearest later boot, shutdown, login or logout of its terminal and process, and how is the kind of that record |
| `Sessions.StillExactly` | adv_cmds/last/last.c:213-214 | with no such record the session still goes on |
| `Sessions.DecodedIsEnding` | adv_cmds/last/last.c:213-222 | the value kept for a terminal decodes to the nearest later event if and only if there is none or its time is positive |
| `Sessions.ShownNumber` | adv_cmds/last/last.c:170-234 | a positive limit is exactly the number of lines shown when there are more; a limit of zero or less never stops the pass, although date lines count it on |
| `Sessions.ShownEndings` | adv_cmds/last/last.c:160-238 | with positive times every login line shows the nearest later event, whatever the filter |
| `Sessions.DownAgrees` | adv_cmds/last/last.c:163-169 | a boot or shutdown sets every entry and the default for new ones to the value of that event |
| `Sessions.ProcessAgrees` | adv_cmds/last/last.c:194-236 | a process record finds the value of the nearest later event and leaves its own time |
| `Sessions.Last.LogoutAll` | adv_cmds/last/last.c:165-169 | everybody logged out |
| `Sessions.Last.FindTty` | adv_cmds/last/last.c:196-205 | the search for a terminal and addtty change the meaning of no entry |
| `Sessions.Last.ShowRecord` | adv_cmds/last/last.c:160-238 | one record: the table keeps agreeing with the log whatever is displayed |
| `Sessions.Last.Wtmp` | adv_cmds/last/last.c:160-240 | for every log, filter and limit, the lines shown are those that the log alone determines |
| `WhoisConnect.Watch` | adv_cmds/whois/whois.c:373-384 | a socket in progress passes from the caller to the poll list |
| `WhoisConnect.Unwatch` | adv_cmds/whois/whois.c:443-454 | an entry that leaves the list passes its descriptor back |
| `WhoisConnect.OpenSocket` | adv_cmds/whois/whois.c:356-371 | a socket that cannot be made non-blocking is closed |
| `WhoisConnect.TryAddress` | adv_cmds/whois/whois.c:356-398 | one address: its socket is returned connected, watched while in progress, or closed |
| `WhoisConnect.DropFailed` | adv_cmds/whois/whois.c:443-448 | a failed attempt is closed and no longer watched |
| `WhoisConnect.CheckEvents` | adv_cmds/whois/whois.c:436-457 | count stays the number of live entries; a reported event always closes one or succeeds |
| `WhoisConnect.PollSockets` | adv_cmds/whois/whois.c:413-458 | the polling loop ends, keeps ownership and count, and without a timeout leaves no live entry unless poll fails |
| `WhoisConnect.Search` | adv_cmds/whois/whois.c:354-464 | the loop over the addresses: the same for what is connected, tried, polled and still watched when it is left |
| `WhoisConnect.CloseWatched` | adv_cmds/whois/whois.c:466-472 | the watched descriptors are closed, each once |
| `WhoisConnect.ConnectToAnyHost` | adv_cmds/whois/whois.c:335-473 | whatever socket, fcntl, connect and poll answer: a descriptor is returned if and only if a connect succeeded at once or a poll reported a connected socket, once; it is connected and the only one left open; none is closed twice; without it every address has been tried unless poll failed; no attempt in progress is closed but those left at the end, and there are such only if poll failed or the last address got no socket; ETIMEDOUT if and only if nothing is connected and none is left; attempts in progress are polled before the next address, with the timeouts of the source |
| `WhoisReferral.NextIsUnvisited` | adv_cmds/whois/whois.c:588-619 | the host asked next is never a registry that has been asked: such a referral is replaced by an unvisited registry or dropped |
| `WhoisReferral.Registries` | adv_cmds/whois/whois.c:149-159 | the five registries in their order |
| `WhoisReferral.RegistriesOnly` | adv_cmds/whois/whois.c:588-601 | registries are known however they are spelled, and no other host is one |
| `WhoisReferral.ChainStep` | adv_cmds/whois/whois.c:588-601 | marking every contact keeps the registries contacted distinct and their number at most the number of marks |
| `WhoisReferral.FollowsChain` | adv_cmds/whois/whois.c:588-619 | along any chain, whatever the replies, registries are pairwise distinct without regard to case, at most five |
| `WhoisReferral.QueryVisitsEachRegistryOnce` | adv_cmds/whois/whois.c:271-282 | the same for every query that starts with cleared marks, whatever its first host |
| `WhoisReferral.NewHostsAreFollowed` | adv_cmds/whois/whois.c:588-619 | as long as every host refers to one that has not been asked, all are asked, in this order |
| `WhoisReferral.VisitedIsReplaced` | adv_cmds/whois/whois.c:594-611 | a referral back to a registry leads to the first one that is left, and to none when all have been asked |
| `CaseFold.SameExactly` | adv_cmds/whois/whois.c:592 | strings are the same if they have the same length and the same letters, large or small |
| `CaseFold.LowerIsLetter` | adv_cmds/whois/whois.c:592 | a capital is lowered to the letter at its place in the alphabet, and nothing else changes |
| `WhoisReferral.Whois.Reset` | adv_cmds/whois/whois.c:161-167 | reset_rir clears all marks |
| `WhoisReferral.Whois.Follow` | adv_cmds/whois/whois.c:588-619 | the tail of whois marks the host and picks the next one |
| `WhoisReferral.Whois.Query` | adv_cmds/whois/whois.c:475-619 | a query contacts the chain of hosts that its replies determine |
| `WhoisReferral.Whois.Queries` | adv_cmds/whois/whois.c:271-282 | every query of a run behaves as if it were the first |

## Left out

- Optional native types, SameCount arrays, NDR conversion, event logging, RPC traps and short-circuit
  calls of migcom.
- Ports and out-of-line memory: `MigTypes` has their sizes, but in messages descriptors are opaque
  fixed-size fields, and the checks on their types and sizes are not modelled.
- MigRequest.CheckRequest: the checks on types and sizes of descriptors, which follow the head check, are
  not modelled, since descriptors are opaque.
- MigCall.CheckReply: the same holds for the descriptors of a complex reply.
- Requests whose message is not packed by the stub.
- mig_strncpy and its zero-filling variant are library functions; what they store is stated in
  `MigLayout.Strncpy` and `MigRequest.Stored`.
- Text formatting, preprocessor guards, header.c and handler.c of migcom, and its parser.
- MigArguments: argument-kind bits of the implicit arguments, their names and multipliers.
- MigCall.MakeReply: MIG_NO_REPLY is a code like any other for the stub; that the server loop then sends
  nothing, and one-way routines, which have no reply, are not modelled.
- uudecode's header line, modes, file names and output files; a null target of b64_pton, which only
  counts; read and write errors.
- hconst and everything written for it, gencat's line reading and parsing, memory exhaustion.
- CatalogueFile: msgcat.h is not part of this model; the order of fields follows their use, padding
  bytes are arbitrary, and the byte-order flag is one low bit.
- Gencat.Load: files whose ids are not sorted positive ints, which gencat does not write, are read but not
  turned into lists.
- Gencat.Run: runs start from what Load turns into lists.
- Gencat.EditFile: files that can be read and have such ids are left out; the searches of the edits miss ids
  in them.
- Fits: string data of a set below 2^31 bytes, offsets below 2^63, texts without NUL; beyond that the
  records themselves cannot hold the values.
- ctime, column widths and signals of last; the sizes in utmpx.h are constants of the model.
- The text of whois queries and replies: a reply is the referral found in it, or none. That a chain ends
  at all is not promised, since other hosts may refer to one another forever; the model follows any
  finite sequence of replies.
- ps, finger, stty, locale, tabs, write, mesg, tty, lsvfs, pkill and cap_mkdb: terminal and system-call
  wrappers, or logic that would only add easier members.
