# A verified model of the TimeBase client's byte-level core

The TimeBase C++ client reads and writes typed messages over byte streams. This project models its
byte-level machinery in Dafny and proves what that machinery is for. `dafny verify dfyconfig.toml` checks the
whole project.

- `Cursor` is the message reader without a buffer: a plain cursor over an immutable byte sequence, with a
  stack of open containers. `Containers` proves what the container stack keeps over whole runs and that any
  plan of reads, skips and partly read containers sees its part of the full message.
- `Integers` and `Encodings` state what every kind of field and container is meant to look like on the wire,
  and that the cursor reads it back; `NestedMessages` does the same for whole nested schemas, for messages in
  blocks, and for messages that are cut short.
- `DataReader` is the buffered reader: four linked pointers into a small refillable, relocatable buffer.
  Every run of calls equals the same run of the cursor, exceptions included. `MessageBlock` reads whole blocks
  of messages with it: every message is answered from its own bytes, whatever was left unread.
- `Alphanumeric`, `PackedAlphanumeric`, `AlphanumericWriter` and `PackedIntegers` are the wire codecs, against
  bit strings and against the writer's encodings.
- `DataWriter` is the message writer with its headers and the trimming of trailing NULL fields, and the exact
  condition under which a message as it is sent gives back what was written.
- `HeaderExpansion` is the writer's nested containers: headers written as one byte and expanded in place, with
  and without trimming. `NestedBodies` joins it to the reader: nested values are written, expanded, trimmed and
  read back.
- `Relay` is the TCP proxy session: two byte queues, a preload gate, and drain-before-close, between two sockets
  that remember what went over them, and a ghost log that puts the events of both in order.
- `Crc32`, `FastDivide`, `Strings`, `Unchunk` and `Streams` are the smaller cores with loops or arithmetic.
- `Words` has machine words, big- and little-endian values and bit strings.

Pointers are offsets into a buffer. A machine word is a number with its bound and its wrap-around written out.
An exception is a result of its own (`Threw`, a Boolean `ok`, an option); after one, a method promises nothing
about the object. Reads from sources and sockets return any amount that their contract allows, so every result
holds for all refill sizes and all interleavings.

## Where the code does not do what it is meant to do

The code is modelled as written. Where a property it is meant to have fails, a lemma gives the exact condition
under which it holds, and another one an input that shows the failure; or the contract says what happens on
every input.

- A packed string of length 8 loses its seventh character, because the fall-through cases are out of order
  (`PackRoundTrip`, `IntegerRoundTrip`, `LengthEightFails`).
- A string of eight spaces packs to the NULL word: it is stored as NULL and read as NULL (`WordRoundTrip`,
  `StoredFieldIsRead`, `EightSpacesAreLost`).
- `putAlphanumeric` stores the upper bits of a character that straddles two 64-bit words from the variable that
  holds the character before. That variable is declared inside the loop, so C++ leaves even this value open;
  the model takes the previous character's, which is what an unchanged stack slot or register holds
  (`AlphanumericRoundTrip`, `StraddleFails`). Strings that fit one word are not affected (`ShortStringsSurvive`).
- The 32-bit `getAlphanumericAs` masks a 32-bit value with a 64-bit mask. It returns 0 for fields of up to four
  bytes, and of longer ones it keeps the bytes before the last four (`NarrowWordExactDomain`, `NarrowWordFails`).
- `skipUnreadMessageBody` unwinds the container stack one slot too high (`UnwindExactDomain`, `TurnExactDomain`,
  `UnwindFails`).
- `skipPackedUInt22` runs away for headers below 0x40 (`Skip22ExactDomain`, `Skip22Fails`).
- `readBinary` is the only nullable read without a test for the end of the content (`SkipIsRead`,
  `BinaryAtEndFails`).
- `putInterval` computes a granularity and does not store it (`IntervalExactDomain`, `IntervalFails`).
- Trimming is switched off in the configuration. As written it would lose values of calls that never report
  them (strings, unsigned integers, binary data), cut the end of the header off a message whose fields are all
  NULL, and leave the write pointer behind the trimmed bytes unless a container header was expanded
  (`TrimExactDomain`, `TrimmedBodyExactDomain`, `TrimLosesFields`, `TrimmedNullThrows`;
  `MessageTrimExactDomain`, `SentMessageExactDomain`, `TrimCutsHeader`;
  `CommitAndStart`, `FramingFails`, `WriteBody`).
- A container of 128 bytes or more inside another container breaks the message: the growth of inner headers is
  not passed up, and the expansion meets its points out of order (`WriteBody`, `NestedIsUnordered`, `NestedFails`).
- A preload that is cut short forgets the bytes that were buffered before (`Preload`, `DisconnectKeepsBuffer`,
  `DisconnectLosesLastByte`); the buffered `tryRead` never counts what it delivers (`TryRead`).
- The unchunker does not pass the line feed of a leading line end (`LeadingCrLfIsRefused`).
- Biased division, the divisibility test and the unsigned range test have exact domains
  (`DivideExactDomain`, `DivideFailsBelowBias`; `DivisibleExactDomain`, `DivisibleFails`; `InRangeExactDomain`,
  `InRangeFails`). Replacement with an empty pattern never advances (`EmptyPatternNeverAdvances`).

## Model

| member | source | states |
|---|---|---|
| DataReader.DataReaderMsg.constructor | src/dxapi/native/tickdb/data_reader.cpp:85-92 | a new reader stands at the start of the stream, outside any message |
| DataReader.DataReaderMsg.MoveToStart | src/dxapi/native/tickdb/http/data_reader_http.cpp:73-76 | the 8-byte word copy plus the memmove moves the unread bytes to the front unharmed, also when the ranges overlap |
| DataReader.DataReaderMsg.MakeRoom | src/dxapi/native/tickdb/http/data_reader_http.cpp:64-83 | unread bytes are kept, possibly moved, and the request fits behind them |
| DataReader.DataReaderMsg.GetFromStream | src/dxapi/native/tickdb/http/data_reader_http.cpp:45-92 | succeeds exactly when the stream still has the bytes; the buffer then shows the stream at the same position and at least the request; an already sufficient buffer and the source stay untouched |
| DataReader.DataReaderMsg.DropBlocks | src/dxapi/native/tickdb/http/data_reader_http.cpp:111-117 | whole buffers are read and forgotten until at most one is left to skip |
| DataReader.DataReaderMsg.SkipStream | src/dxapi/native/tickdb/http/data_reader_http.cpp:98-125 | any amount is skipped exactly when the stream has it, with the buffer again a window of the stream |
| DataReader.DataReaderMsg.SkipIntoBlock | src/dxapi/native/tickdb/http/data_reader_http.cpp:119-124 | the last read lands behind the skipped bytes |
| DataReader.DataReaderMsg.Get | src/dxapi/native/tickdb/data_reader.cpp:1036-1072 | no read crosses the content end; a refill keeps the absolute content end and the link of the four pointers |
| DataReader.DataReaderMsg.SkipBarrier | src/dxapi/native/tickdb/data_reader.cpp:1028-1088 | no skip crosses the content end; the absolute content end is kept |
| DataReader.DataReaderMsg.OnReadBarrier | src/dxapi/native/tickdb/data_reader.cpp:1110-1115 | the bytes shown after a refill are the stream bytes at the old position |
| DataReader.DataReaderMsg.WindowIsStream | include/native/dxapi/data_reader.h:622-629 | what the window shows is what an immutable stream holds |
| DataReader.DataReaderMsg.Bytes | include/native/dxapi/data_reader.h:622-629 | equals taking bytes at a plain cursor, or throws where that throws; touches the source only when the buffer lacks the bytes |
| DataReader.DataReaderMsg.Peek | src/dxapi/native/tickdb/data_reader_impl.h:419-426 | the same bytes without moving the cursor, although the buffer may be refilled and moved |
| DataReader.DataReaderMsg.Skip | include/native/dxapi/data_reader.h:607-617 | equals moving the plain cursor, or throws where that throws |
| DataReader.DataReaderMsg.Drain | src/dxapi/native/tickdb/data_reader.cpp:745-755 | takes what is buffered and makes at least one byte more available |
| DataReader.DataReaderMsg.CopyToLast | src/dxapi/native/tickdb/data_reader.cpp:743-755 | the copy loop ends, with exactly the missing bytes left in the window |
| DataReader.DataReaderMsg.GetBytes | src/dxapi/native/tickdb/data_reader.cpp:735-763 | any length, across any refills, equals taking bytes at the plain cursor |
| DataReader.DataReaderMsg.LoadBE | include/native/dxapi/data_reader.h:203-204 | a wide big-endian load shifted right is the fixed-width field, whatever stands behind it |
| DataReader.DataReaderMsg.LoadMasked | src/dxapi/native/tickdb/data_reader.cpp:545-586 | a wide little-endian load masked is exactly the bytes of the field |
| DataReader.DataReaderMsg.GetPackedUInt61 | src/dxapi/native/tickdb/data_reader.cpp:545-554 | the buffered decoder equals the cursor one |
| DataReader.DataReaderMsg.GetPackedUInt30 | src/dxapi/native/tickdb/data_reader.cpp:557-567 | the buffered decoder equals the cursor one |
| DataReader.DataReaderMsg.GetPackedUInt22 | src/dxapi/native/tickdb/data_reader.cpp:570-586 | the buffered decoder equals the cursor one |
| DataReader.DataReaderMsg.GetInterval | src/dxapi/native/tickdb/data_reader.cpp:596-617 | the buffered decoder equals the cursor one |
| DataReader.DataReaderMsg.GetDecimal | src/dxapi/native/tickdb/data_reader.cpp:495-520 | the framing of a decimal: header and mantissa bytes |
| DataReader.DataReaderMsg.GetText | src/dxapi/native/tickdb/data_reader.cpp:810-842 | a string or NULL, with its bytes copied across refills |
| DataReader.DataReaderMsg.GetBinary | src/dxapi/native/tickdb/data_reader.cpp:868-882 | binary data or NULL, with its bytes copied across refills |
| DataReader.DataReaderMsg.PeekLength | src/dxapi/native/tickdb/data_reader.cpp:250-262 | the length of an alphanumeric field comes from its own header bits alone |
| DataReader.DataReaderMsg.GetAlphanumeric | src/dxapi/native/tickdb/data_reader.cpp:250-293 | for every size the reader admits, the field is its six-bit slices, read from the window by the accumulator loop |
| DataReader.DataReaderMsg.LoadHighBytes | src/dxapi/native/tickdb/data_reader.cpp:315-317 | the masked load of four or eight bytes is a function of the bytes of the field alone |
| DataReader.DataReaderMsg.GetAlphanumericAs | src/dxapi/native/tickdb/data_reader.cpp:296-317 | a field as an integer: the exceptions for long fields and lengths, NULL from one byte, else the masked load, as the cursor has it |
| DataReader.DataReaderMsg.ReadAlphanumericAs | src/dxapi/native/tickdb/data_reader.cpp:349-356 | the same with NULL at the end of the content |
| DataReader.DataReaderMsg.ReadLeaf | include/native/dxapi/data_reader.h:268-375 | every field read equals the cursor one, NULL at the end of the content included |
| DataReader.DataReaderMsg.SkipLeaf | include/native/dxapi/data_reader.h:378-426 | every field skip equals the cursor one |
| DataReader.DataReaderMsg.SkipAlphanumeric | src/dxapi/native/tickdb/data_reader.cpp:320-336 | skipping by the length bits equals the cursor skip |
| DataReader.DataReaderMsg.SkipDecimal | src/dxapi/native/tickdb/data_reader.cpp:523-542 | skipping by the header equals the cursor skip |
| DataReader.DataReaderMsg.SkipBinary | src/dxapi/native/tickdb/data_reader.cpp:859-865 | skipping by the packed length equals the cursor skip |
| DataReader.DataReaderMsg.SkipText | include/native/dxapi/data_reader.h:417-426 | skipping by the two-byte length equals the cursor skip |
| DataReader.DataReaderMsg.SkipPacked | include/native/dxapi/data_reader.h:403-415 | fields whose first byte tells how much follows |
| DataReader.DataReaderMsg.OpenContainer | src/dxapi/native/tickdb/data_reader.cpp:904-934 | pushes a container clipped to what is left of its parent, or reports NULL or overflow, as the cursor does |
| DataReader.DataReaderMsg.CloseContainer | src/dxapi/native/tickdb/data_reader.cpp:937-955 | skips to the end of the container and restores the end of its parent, across refills |
| DataReader.DataReaderMsg.SkipContainer | src/dxapi/native/tickdb/data_reader.cpp:958-969 | skips the smaller of the declared size and what is left |
| DataReader.DataReaderMsg.ReadStart | src/dxapi/native/tickdb/data_reader.cpp:972-999 | object and array starts: type index or item count, NULL, or an exception |
| DataReader.DataReaderMsg.Step | src/dxapi/native/tickdb/data_reader.cpp:735-1131 | one call of a user equals one step of the cursor |
| DataReader.DataReaderMsg.Run | src/dxapi/native/tickdb/data_reader.cpp:735-1131 | for any refill sizes and relocations, any sequence of reads, skips, peeks, opens and closes returns what the plain cursor returns, throws exactly when it throws, ends where it ends, and leaves the slots of the container stack as the cursor run predicts |
| DataReader.DataReaderMsg.ResetMessageSize | src/dxapi/native/tickdb/data_reader_impl.h:389-394 | the content end moves out of reach, the position stays |
| DataReader.DataReaderMsg.SetMessageSize | src/dxapi/native/tickdb/data_reader_impl.h:397-404 | a message of the given size starts at the current position with an empty stack |
| DataReader.DataReaderMsg.SkipUnreadMessageBody | src/dxapi/native/tickdb/data_reader.cpp:1091-1107 | where the unwinding as written makes the reader land |
| DataReader.DataReaderMsg.NextMessage | src/dxapi/native/tickdb/data_reader_impl.h:407-416 | the reader lands at the content end plus the unwound slots, or throws when the stream or the address range ends before |
| DataReader.UnwindExactDomain | src/dxapi/native/tickdb/data_reader.cpp:1091-1099 | the unwinding reaches the end of the message exactly when no container is open or the slot above the stack happens to equal the lowest one |
| DataReader.RunSlotsSnoc | src/dxapi/native/tickdb/data_reader.cpp:926-932 | the slots after a run are those before its last step, with the one filled that the step pushes |
| MessageBlock.TickCursor.VisitMessage | src/dxapi/native/tickdb/http/tickcursor_http.cpp:570 | a message is entered by its length, read by any calls, and left for where the unwinding leads |
| MessageBlock.TickCursor.ReadMessageInBlock | src/dxapi/native/tickdb/http/tickcursor_http.cpp:556-576 | one turn: terminator, refused length, or a message visited, from the length that stands at the position |
| MessageBlock.TickCursor.ReadBlock | src/dxapi/native/tickdb/http/tickcursor_http.cpp:839-847 | any number of messages with any calls in each equals the block function, whatever the refills; nothing is read behind the terminator |
| MessageBlock.TickCursor.SkipMessageBlock | src/dxapi/native/tickdb/http/tickcursor_http.cpp:497-509 | skipping ends behind the terminator that the lengths lead to, or throws when the stream ends first |
| MessageBlock.BlockIsRead | src/dxapi/native/tickdb/http/tickcursor_http.cpp:556-669 | when the calls in every message close what they open, every message is answered as if it were alone, from its own bytes, and the reader ends where the lengths lead, however much was left unread |
| MessageBlock.EndIsBlockEnd | src/dxapi/native/tickdb/http/tickcursor_http.cpp:497-509 | a block read to its terminator ends where skipping the block ends |
| MessageBlock.TurnExactDomain | src/dxapi/native/tickdb/data_reader.cpp:1091-1107 | after any reachable message the next one is looked for right behind it exactly when no container was left open or the slot above the stack holds what the outermost one left |
| MessageBlock.RunFitsSlots | src/dxapi/native/tickdb/data_reader.cpp:904-955 | after any run the stack of open containers is the lower part of the slots |
| MessageBlock.BlockStays | src/dxapi/native/tickdb/http/tickcursor_http.cpp:560-567 | nothing is read behind the end of a block |
| MessageBlock.UnwindFails | src/dxapi/native/tickdb/data_reader.cpp:1095-1099 | a concrete message with an object left open in it, after which the next message is looked for eight bytes early |
| MessageBlock.TerminatorEndsBlock | src/dxapi/native/tickdb/http/tickcursor_http.cpp:563-567 | the bytes FF FF FF FF end the block behind them |
| MessageBlock.LengthsAdmitted | src/dxapi/native/tickdb/http/tickcursor_http.cpp:572-574 | messages from 14 bytes to four megabytes are visited and all others refused |
| Cursor.SkipIsRead | src/dxapi/native/tickdb/data_reader.cpp:495-617 | skipping a field ends where reading it ends or throws where reading throws, exactly unless a binary field is met at the end of the content, where only the skip tests for it |
| Cursor.BinaryAtEndFails | src/dxapi/native/tickdb/data_reader.cpp:859-882 | at the end of the content a binary field is skipped and cannot be read |
| Cursor.EndsFollow | src/dxapi/native/tickdb/data_reader.cpp:904-955 | containers that stay open keep their ends, down to the message |
| Cursor.OpenPushes | src/dxapi/native/tickdb/data_reader.cpp:904-934 | opening pushes one entry that leads back to the end of the parent |
| Cursor.StartKeepsEnds | src/dxapi/native/tickdb/data_reader.cpp:972-999 | starting an object or array changes no outer end |
| Cursor.CloseKeepsEnds | src/dxapi/native/tickdb/data_reader.cpp:937-955 | closing lands at the end of the container and restores its parent |
| Cursor.StepKeepsEnds | src/dxapi/native/tickdb/data_reader.cpp:904-1088 | every step keeps the end of every container open before and after it |
| Cursor.RunSnoc | src/dxapi/native/tickdb/data_reader.cpp:735-1131 | a run is its first part followed by one more step |
| Containers.RunKeepsMessageEnd | src/dxapi/native/tickdb/data_reader.cpp:904-955 | in every reachable state the content end plus all open offsets is the message end, no container passes its parent, and nothing past the current end was read |
| Containers.RunWithin | src/dxapi/native/tickdb/data_reader.cpp:904-955 | a run that never closes below a depth leaves everything up to that depth as it was |
| Containers.SkipIsOpenReadClose | src/dxapi/native/tickdb/data_reader.cpp:904-969 | skipping a container equals opening it, any reads inside (partial or nested) and closing it |
| Containers.CloseStarted | src/dxapi/native/tickdb/data_reader.cpp:937-969 | closing gives the same place from wherever reading stopped |
| Containers.SkipContainerField | src/dxapi/native/tickdb/data_reader.cpp:958-1021 | skipping an object or array field that can be read ends where reading it ends |
| Containers.PlanSeesProjection | src/dxapi/native/tickdb/data_reader.cpp:859-969 | under any plan of reads, skips and partly read containers, for any nested schema, the read fields decode identically and the end position is that of reading all |
| Containers.PlansSeeProjection | src/dxapi/native/tickdb/data_reader.cpp:859-969 | the same for a list of fields, with or without a plan for every field |
| Integers.IntegerIsRead | include/native/dxapi/data_reader.h:279-308 | every value of a signed integer of 1, 2, 4, 6 or 8 bytes, stored as its low bytes, is read back with its sign and the reader ends behind it |
| Integers.EndIsLowest | include/native/dxapi/data_reader.h:279-308 | past the end of the content an integer reads as its bytes 0x80 0 .. 0 do |
| Integers.LowestValues | include/native/dxapi/dxconstants.h:29-40 | the lowest values, as literals |
| Encodings.LeafIsRead | include/native/dxapi/data_reader.h:268-375 | for every kind of field - signed integers, packed integers with NULL, intervals, decimals, strings, alphanumeric text, binary data - every value it can carry is read back from its intended encoding, and the cursor ends behind it |
| Encodings.EndIsNull | include/native/dxapi/data_reader.h:268-375 | past the end of the content every field but a binary one reads as its NULL bytes do |
| Encodings.NullNumbers | include/native/dxapi/dxconstants.h:24-43 | the numbers that stand for NULL, as literals |
| Encodings.ContentIsOpened | src/dxapi/native/tickdb/data_reader.cpp:904-934 | opening a container of any content stands in front of the content with the end behind it |
| Encodings.ArrayStartIsRead | src/dxapi/native/tickdb/data_reader.cpp:972-984 | the start of an array answers the number of its items, a packed integer of up to three bytes, and stands in front of the first one |
| Encodings.ObjectStartIsRead | src/dxapi/native/tickdb/data_reader.cpp:986-999 | the start of an object answers its type byte and stands in front of its fields |
| Encodings.NullStartIsRead | src/dxapi/native/tickdb/data_reader.cpp:904-934 | a zero in the place of a container is NULL, at any depth |
| Encodings.TooDeep | src/dxapi/native/tickdb/data_reader.cpp:904-934 | inside sixteen containers only NULL can be opened |
| Encodings.LongClaimIsClipped | src/dxapi/native/tickdb/data_reader.cpp:904-934 | a container that claims more than its parent has left ends with its parent |
| Encodings.CloseExactDomain | src/dxapi/native/tickdb/data_reader.cpp:937-955 | closing succeeds exactly by the call of the right kind, when the stream reaches the end |
| NestedMessages.NestedRoundTrip | src/dxapi/native/tickdb/data_reader.cpp:904-999 | for every nested schema, every value - leaves, NULLs, objects and arrays in each other - is read back from its encoding, and the cursor ends behind it |
| NestedMessages.ListRoundTrip | src/dxapi/native/tickdb/data_reader.cpp:904-999 | the same for a list of fields |
| NestedMessages.CallsAnswered | src/dxapi/native/tickdb/data_reader.cpp:735-1131 | a field that can be read as a whole is answered with the same values by the calls of a user, one after the other |
| NestedMessages.EncodedIsAnswered | src/dxapi/native/tickdb/data_reader.cpp:735-1131 | the calls that fit a list of fields give back its values from the encoding |
| NestedMessages.MessagesAreRead | src/dxapi/native/tickdb/http/tickcursor_http.cpp:556-669 | every block of messages with nested content is read to exactly the values that were encoded, and the reader ends behind the last one |
| NestedMessages.CutFieldsExactDomain | include/native/dxapi/data_reader.h:268-375 | a message of nested fields cut behind any field reads as the whole one exactly when every field that was cut off had the value that is read past the end |
| NestedBodies.AllItemsEncode | src/dxapi/native/tickdb/data_writer.cpp:943-1104 | the bytes and containers that the writer is asked to write spell the encoding of the values |
| NestedBodies.KeptFields | src/dxapi/native/tickdb/data_writer_impl.h:197-208 | what trimming keeps are whole fields: those up to the last one that reported |
| NestedBodies.AllItemsFit | src/dxapi/native/tickdb/data_writer.cpp:1056-1104 | every value that can be encoded fits the lengths of the writer, and is nested as deep as its items |
| NestedBodies.TrimmedBodyExactDomain | src/dxapi/native/tickdb/data_writer_impl.h:197-208 | a trimmed body of nested fields reads as the values written exactly when no string of bytes and no binary field stands behind the last one that reported |
| NestedBodies.WrittenBodyIsRead | src/dxapi/native/tickdb/data_writer.cpp:1113-1141 | a body that is not trimmed gives back every value |
| NestedBodies.WriteFields | src/dxapi/native/tickdb/data_writer.cpp:1056-1196 | writing any nested fields, expanding the headers and reading the buffer back: it succeeds exactly when they fit and no long container stands in another one, and then the values read are the values written exactly when trimming lost none |
| Alphanumeric.BsrOfReadable | src/dxapi/native/tickdb/data_reader.cpp:250-258 | every admitted size has a length field of 1 to 14 bits |
| Alphanumeric.DecodeChars | src/dxapi/native/tickdb/data_reader.cpp:268-290 | the shifting accumulator yields exactly the six-bit slices at their bit offsets plus 0x20, independent of what the wide loads read past the field |
| Alphanumeric.FirstLoad | src/dxapi/native/tickdb/data_reader.cpp:257-262 | the first wide load holds the length and the first characters |
| Alphanumeric.RefillBits | src/dxapi/native/tickdb/data_reader.cpp:280-289 | shifting three fresh bytes in keeps the unread bits |
| Alphanumeric.NullFieldBits | src/dxapi/native/tickdb/data_writer_impl.h:188-193 | the NULL field spells the size plus one in its length bits, for every size |
| Alphanumeric.WideLoadIsField | src/dxapi/native/tickdb/data_reader.cpp:315-317 | the masked 64-bit load has the bytes of the field on top and nothing of what follows |
| Alphanumeric.NarrowLoad | src/dxapi/native/tickdb/data_reader.cpp:315-317 | what the 32-bit instance makes of a field: nothing of up to four bytes, and of longer ones all but the last four |
| Alphanumeric.NarrowWordExactDomain | src/dxapi/native/tickdb/data_reader.cpp:296-317 | for fields of every length the 32-bit instance is right exactly when the bytes that the 64-bit mask clears are zero |
| Alphanumeric.NarrowWordFails | src/dxapi/native/tickdb/data_reader.cpp:315-317 | concrete fields of one byte and of five bytes that the 32-bit instance loses |
| PackedAlphanumeric.ToAlphanumericInt64 | src/dxapi/native/tickdb/data_reader.cpp:454-489 | the packed word, at 64-bit width, or NULL |
| PackedAlphanumeric.FromAlphanumericInt64 | src/dxapi/native/tickdb/data_reader.cpp:417-448 | which positions are written, in the case order of the source, and with what |
| PackedAlphanumeric.PackedChar | src/dxapi/native/tickdb/data_reader.cpp:454-489 | every character is recovered from the word by shift and mask |
| PackedAlphanumeric.PackInjective | src/dxapi/native/tickdb/data_reader.cpp:454-489 | different strings have different words |
| PackedAlphanumeric.OnlyEightSpacesPackToNull | src/dxapi/native/tickdb/data_reader.cpp:454-489 | eight spaces are the only string whose word is ALPHANUMERIC_NULL |
| PackedAlphanumeric.PackRoundTrip | src/dxapi/native/tickdb/data_reader.cpp:417-489 | unpacking gives the packed string back exactly unless it is eight spaces or has length 8 and the destination did not already hold its seventh character |
| PackedAlphanumeric.LengthEightFails | src/dxapi/native/tickdb/data_reader.cpp:432-436 | a concrete string of length 8 that is not recovered |
| PackedAlphanumeric.WordFieldLength | src/dxapi/native/tickdb/data_writer.cpp:722-727 | the first bits of a stored word are its length |
| PackedAlphanumeric.WordFieldIsRead | src/dxapi/native/tickdb/data_reader.cpp:296-317 | what is read of any stored word: the word without the bits behind its field, NULL for the length that stands for it, an exception for longer ones |
| PackedAlphanumeric.WordRoundTrip | src/dxapi/native/tickdb/data_writer.cpp:716-729 | for every size a stored word is read back exactly when it is NULL, or its length is admitted and no bit is set behind its characters |
| PackedAlphanumeric.PackedIsRead | src/dxapi/native/tickdb/data_writer.cpp:716-729 | the word of every valid string is read back |
| PackedAlphanumeric.IntegerRoundTrip | src/dxapi/native/tickdb/data_reader.cpp:296-448 | packing, storing, reading as a word and unpacking gives the string back exactly unless it is eight spaces or has length 8 and the destination did not already hold its seventh character |
| PackedAlphanumeric.PackedFieldSpells | src/dxapi/native/tickdb/data_writer.cpp:716-729 | the bits of a stored word are the length and the characters of its string |
| PackedAlphanumeric.StoredFieldIsRead | src/dxapi/native/tickdb/data_reader.cpp:250-293 | a packed and stored string is read back by the alphanumeric reader exactly when it is not eight spaces, which are read as NULL |
| PackedAlphanumeric.EightSpacesAreLost | src/dxapi/native/tickdb/data_writer.cpp:716-722 | eight spaces are stored as the byte 0xB0 and read as NULL |
| PackedAlphanumeric.NullIsRead | src/dxapi/native/tickdb/data_reader.cpp:250-266 | a NULL field of any size is read as NULL and consumed |
| PackedAlphanumeric.NarrowFieldIsRead | src/dxapi/native/tickdb/data_reader.cpp:296-317 | what the 32-bit instance makes of every stored word: NULL as 0x80000000, an exception for longer ones, else what the narrow load gives |
| PackedAlphanumeric.NullWords | src/dxapi/native/tickdb/data_reader.cpp:296-356 | NULL in the stream and the end of the content read as the same word in both widths |
| PackedAlphanumeric.LongFieldIsNoWord | src/dxapi/native/tickdb/data_reader.cpp:296-301 | a field longer than ten characters is never read as an integer |
| AlphanumericWriter.PutAlphanumeric | src/dxapi/native/tickdb/data_writer.cpp:621-684 | throws for a long string, a wrong character or a lack of room and else writes the whole field, marking unless it is NULL |
| AlphanumericWriter.PutCharacters | src/dxapi/native/tickdb/data_writer.cpp:639-683 | the accumulator loop, with its stores of full words, writes exactly the field that spells length and stored codes |
| AlphanumericWriter.FlushCode | src/dxapi/native/tickdb/data_writer.cpp:652-667 | storing a full accumulator and starting the next keeps every bit, but takes the upper bits of a straddling character from the one before |
| AlphanumericWriter.PushCode | src/dxapi/native/tickdb/data_writer.cpp:669-675 | one more code in the accumulator, within its 64 bits |
| AlphanumericWriter.LastWord | src/dxapi/native/tickdb/data_writer.cpp:681-682 | the last store completes the field to its last byte |
| AlphanumericWriter.FieldSpells | src/dxapi/native/tickdb/data_writer.cpp:621-684 | the field spells its length and, at every place, the stored code |
| AlphanumericWriter.FieldIsRead | src/dxapi/native/tickdb/data_reader.cpp:250-293 | a written field of any size is read with its own length and at every place with the stored code |
| AlphanumericWriter.AlphanumericRoundTrip | src/dxapi/native/tickdb/data_reader.cpp:250-293 | NULL is read as NULL, and a string is read back exactly when every character that straddles two 64-bit words has the same upper bits as the one before it |
| AlphanumericWriter.StoredAsItself | src/dxapi/native/tickdb/data_writer.cpp:652-667 | when a single character is stored as itself |
| AlphanumericWriter.ShortStringsSurvive | src/dxapi/native/tickdb/data_writer.cpp:655-657 | strings that fit one word together with their length always survive |
| AlphanumericWriter.StraddleFails | src/dxapi/native/tickdb/data_writer.cpp:663-665 | nine spaces and an underscore in a field of size 16 come back with another last character |
| PackedIntegers.PackedRoundTrip30 | src/dxapi/native/tickdb/data_writer.cpp:332-355 | every value below 2^30 is read back and the reader ends behind its encoding |
| PackedIntegers.PackedRoundTrip61 | src/dxapi/native/tickdb/data_writer.cpp:332-355 | every value below 2^61 is read back and the reader ends behind its encoding |
| PackedIntegers.PackedRoundTrip22 | src/dxapi/native/tickdb/data_writer.cpp:358-374 | every value below 2^22 is read back and the reader ends behind its encoding |
| PackedIntegers.DecodedWithinBounds | src/dxapi/native/tickdb/data_reader.cpp:545-586 | whatever bytes are read, the value stays within its format |
| PackedIntegers.PackedIsShortest30 | src/dxapi/native/tickdb/data_writer.cpp:332-355 | no other bytes that decode to a value are fewer than the written ones |
| PackedIntegers.PackedIsShortest61 | src/dxapi/native/tickdb/data_writer.cpp:332-355 | no other bytes that decode to a value are fewer than the written ones |
| PackedIntegers.PackedIsShortest22 | src/dxapi/native/tickdb/data_writer.cpp:358-374 | no other bytes that decode to a value are fewer than the written ones |
| PackedIntegers.NullableRoundTrip30 | src/dxapi/native/tickdb/data_reader.cpp:772-783 | NULL and every value survive, by the masked decrement that maps only 0 to NULL |
| PackedIntegers.NullableRoundTrip61 | src/dxapi/native/tickdb/data_reader.cpp:786-797 | NULL and every value survive, by the masked decrement that maps only 0 to NULL |
| PackedIntegers.Skip22ExactDomain | src/dxapi/native/tickdb/data_reader.cpp:589-593 | the skip takes what the read takes exactly for headers from 0x40 up |
| PackedIntegers.Skip22Fails | src/dxapi/native/tickdb/data_reader.cpp:589-593 | a concrete header for which the skip runs away |
| PackedIntegers.IntervalExactDomain | src/dxapi/native/tickdb/data_writer.cpp:178-234 | an interval survives writing and reading exactly when it is 0, not a whole number of minutes, or too long for six bits: the granularity is never stored |
| PackedIntegers.IntervalFails | src/dxapi/native/tickdb/data_writer.cpp:220-230 | two minutes are read back as two seconds |
| PackedIntegers.IntendedIntervalIsRead | src/dxapi/native/tickdb/data_reader.cpp:596-617 | the intended encoding, with seconds, minutes, hours or four bytes by the top two bits, is read back for every interval below 2^31 |
| PackedIntegers.UnitsOfInterval | src/dxapi/native/tickdb/data_reader.cpp:596-617 | each of the four headers has its own unit: 1000, 60000, 3600000, or the four bytes behind it |
| DataWriter.ReadEncoded | include/native/dxapi/data_reader.h:268-375 | an untrimmed field is read as the value it carries |
| DataWriter.ValueSurvives | include/native/dxapi/data_writer.h:286-401 | every value in the range of its field survives |
| DataWriter.NullVanishes | include/native/dxapi/data_writer.h:261-269 | a field marked as NULL reads as what a reader past the end is given |
| DataWriter.CutExactDomain | include/native/dxapi/data_reader.h:268-375 | a message cut behind any number of fields reads as the whole one exactly when every cut field reads as what a reader past the end is given |
| DataWriter.TrimExactDomain | src/dxapi/native/tickdb/data_writer_impl.h:197-208 | trimming preserves every value exactly when no unreported value lies behind the last field known not to be NULL |
| DataWriter.TrimOfTrackedFields | src/dxapi/native/tickdb/data_writer_impl.h:197-208 | for integers, timestamps, times of day, enums, characters and booleans trimming is always safe |
| DataWriter.TrimIsShorter | src/dxapi/native/tickdb/data_writer_impl.h:197-231 | the trimmed length never exceeds the written one, and when it spares the header |
| DataWriter.MessageTrimExactDomain | src/dxapi/native/tickdb/data_writer_impl.h:197-231 | a trimmed message reads as the whole one exactly when, besides, a field was reported non-NULL or the timestamp was NULL; otherwise the cut takes the end of the header |
| DataWriter.FieldsAreLeaves | include/native/dxapi/data_reader.h:268-375 | signed integers, timestamps, strings and binary fields are read by the calls of the reader itself |
| DataWriter.KindTable | include/native/dxapi/dxconstants.h:22-42 | the widths of all fields and the values that stand for NULL, as literals |
| DataWriter.FieldsAreRead | include/native/dxapi/data_reader.h:268-375 | any sequence of written fields is read as the values they carry |
| DataWriter.EntityIsRead | src/dxapi/native/tickdb/http/tickcursor_http.cpp:449-460 | an entity below 2^15 is read from two bytes, and one below 2^31 from the four of the wide header |
| DataWriter.HeaderIsRead | src/dxapi/native/tickdb/http/tickcursor_http.cpp:576-583 | a written header gives back every timestamp in range, every entity that fits and the type, and ends after its size |
| DataWriter.WholeOrCut | src/dxapi/native/tickdb/data_writer_impl.h:197-208 | the kept fields read as the values written exactly when nothing unreported was cut |
| DataWriter.CutHeaderThrows | src/dxapi/native/tickdb/http/tickcursor_http.cpp:576-583 | a message without the end of its header makes the reader throw |
| DataWriter.SentMessageExactDomain | src/dxapi/native/tickdb/http/tickloader_http.cpp:1155-1180 | a message as it is sent, with its length, gives back timestamp, entity, type and all values exactly when the cut spared the header and no unreported value was lost |
| DataWriter.TrimLosesFields | src/dxapi/native/tickdb/data_writer_impl.h:197-208 | a concrete message whose string and unsigned integer are lost |
| DataWriter.TrimmedNullThrows | src/dxapi/native/tickdb/data_writer_impl.h:197-208 | a binary NULL that is trimmed away makes the reader throw |
| DataWriter.TrimCutsHeader | src/dxapi/native/tickdb/http/tickloader_http.cpp:1162-1177 | a concrete message that loses three bytes of its header |
| DataWriter.FramingExactDomain | src/dxapi/native/tickdb/data_writer_impl.h:197-208 | the trimmed length is the whole one exactly when the last write marked, or nothing was written and the timestamp was NULL |
| DataWriter.FramingFails | src/dxapi/native/tickdb/http/tickloader_http.cpp:209-218 | a concrete message whose stored end lies four bytes before the next message |
| DataWriter.ShiftedStore | include/native/dxapi/data_writer.h:319-330 | a value shifted to the top of a 64-bit store has its bytes in front |
| DataWriter.Writer.PutBE | include/native/dxapi/data_writer.h:570-578 | a store wider than the field leaves all earlier bytes alone and puts the leading bytes of the word; overflow is reported |
| DataWriter.Writer.PutBytes | include/native/dxapi/data_writer.h:580-592 | bytes are appended or overflow is reported |
| DataWriter.Writer.PutWord | include/native/dxapi/data_writer.h:325-330 | fields of every width, 48-bit ones by a shifted 64-bit store |
| DataWriter.Writer.CheckNull | include/native/dxapi/data_writer.h:261-269 | the mark moves exactly for non-NULL values |
| DataWriter.Writer.SetNotNull | include/native/dxapi/data_writer.h:271-274 | the mark moves |
| DataWriter.Writer.Appended | include/native/dxapi/data_writer.h:261-274 | after any write the message is the old one plus the field, and the mark is where trimming may cut |
| DataWriter.Writer.WritePlain | include/native/dxapi/data_writer.h:291-401 | the message grows by the field; the mark follows the comparison with NULL |
| DataWriter.Writer.WriteFlagged | include/native/dxapi/data_writer.h:427-533 | the message grows by the field or NULL; the mark follows the flag |
| DataWriter.Writer.WriteBoolean | include/native/dxapi/data_writer.h:391-395 | the message grows by the field; the mark always moves |
| DataWriter.Writer.WriteUInt8 | include/native/dxapi/data_writer.h:286-289 | the message grows by the field; the mark stays |
| DataWriter.Writer.WriteUInt40 | include/native/dxapi/data_writer.h:319-323 | the message grows by the field; the mark stays |
| DataWriter.Writer.WriteText | src/dxapi/native/tickdb/data_writer.cpp:58-69 | the message grows by length and text, or by the NULL length; the mark stays |
| DataWriter.Writer.PutPacked | src/dxapi/native/tickdb/data_writer.cpp:306-355 | a wide store behind the header byte, cut to the packed form |
| DataWriter.Writer.PutSized | src/dxapi/native/tickdb/data_writer.cpp:881-905 | a packed length and that many bytes are appended, or overflow is reported |
| DataWriter.Writer.WriteBinary | src/dxapi/native/tickdb/data_writer.cpp:881-905 | the message grows by flag, length and data, or by the NULL flag; the mark stays |
| DataWriter.Writer.WriteAll | include/native/dxapi/data_writer.h:286-578 | any sequence of writes appends their encodings in order, or overflows exactly when they do not fit |
| DataWriter.Writer.StartMessage | src/dxapi/native/tickdb/data_writer_impl.h:218-231 | four bytes are reserved and the mark is set behind the header |
| DataWriter.Writer.WriteHeader | src/dxapi/native/tickdb/http/tickloader_http.cpp:1162-1177 | timestamp, entity and type, in the bytes that HeaderIsRead reads back; a timestamp that is not NULL moves the mark back to its own end |
| DataWriter.Writer.NextMessage | src/dxapi/native/tickdb/http/tickloader_http.cpp:1155-1180 | a message begins with its header and no fields |
| DataWriter.Writer.EndMessage | src/dxapi/native/tickdb/http/tickloader_http.cpp:209-218 | the trimmed length is stored, the bytes stay, the write pointer does not move |
| DataWriter.Writer.CommitAndStart | src/dxapi/native/tickdb/http/tickloader_http.cpp:1121-1180 | committing a message and starting the next: the new message starts where the committed one is said to end exactly when nothing was trimmed; the committed bytes stay |
| DataWriter.Writer.WriteMessage | src/dxapi/native/tickdb/http/tickloader_http.cpp:209-218 | after a whole message the buffer holds its length, header and every field, the returned end is the trimmed one, and up to it stands the message that SentMessageExactDomain reads back |
| HeaderExpansion.HeaderIsPacked22 | src/dxapi/native/tickdb/data_writer.cpp:1092-1104 | the expanded header of a container is the variable-length integer its reader decodes |
| HeaderExpansion.OpenedAsWritten | src/dxapi/native/tickdb/data_reader.cpp:904-934 | opening a written container gives exactly its content, for every content that is not empty |
| HeaderExpansion.PackedLengthIsHeader | src/dxapi/native/tickdb/data_writer.cpp:1097-1104 | the recorded word holds the header bytes and, on top, how many bytes are inserted |
| HeaderExpansion.MergedStore | src/dxapi/native/tickdb/data_writer.cpp:1116-1134 | the four-byte store of a two- or three-byte header keeps the memory behind it |
| HeaderExpansion.AroundLong | src/dxapi/native/tickdb/data_writer.cpp:1092-1096 | what holds a long container is long itself |
| HeaderExpansion.FlatExpands | src/dxapi/native/tickdb/data_writer.cpp:1113-1141 | without nested long containers the recorded points ascend, expanding the raw bytes gives the encoding, and the growth is what the writer counted |
| HeaderExpansion.NestedIsUnordered | src/dxapi/native/tickdb/data_writer.cpp:1092-1104 | a long container inside a container makes the points descend somewhere, since inner ones are recorded first |
| HeaderExpansion.NestedFails | src/dxapi/native/tickdb/data_writer.cpp:1092-1141 | a concrete content that cannot be finished: an array of 128 bytes in an object |
| HeaderExpansion.ContainerWritten | src/dxapi/native/tickdb/data_writer.cpp:1056-1104 | opening, writing content and closing appends a container, counts its growth for the parent, and records its point |
| HeaderExpansion.ContainerWriter.MemMove | src/dxapi/native/tickdb/data_writer.cpp:1122-1124 | the overlapping move as a function of the old buffer |
| HeaderExpansion.ContainerWriter.StoreHeader | src/dxapi/native/tickdb/data_writer.cpp:1126-1134 | only the header bytes change |
| HeaderExpansion.ContainerWriter.ExpandOne | src/dxapi/native/tickdb/data_writer.cpp:1121-1135 | one stretch of content is moved and its header put in front |
| HeaderExpansion.ContainerWriter.ExpandHeaders | src/dxapi/native/tickdb/data_writer.cpp:1113-1141 | expanding in place from the back succeeds exactly when the points ascend inside the message and the growth is theirs, and then equals expanding from the front into a new sequence |
| HeaderExpansion.ContainerWriter.OpenContainer | src/dxapi/native/tickdb/data_writer.cpp:1056-1073 | a header byte is reserved and remembered, or the nesting or the buffer overflows |
| HeaderExpansion.ContainerWriter.CloseContainer | src/dxapi/native/tickdb/data_writer.cpp:1076-1104 | the low byte of the length is stored, a point recorded when that is not all, and the mark moved |
| HeaderExpansion.ContainerWriter.WriteItems | src/dxapi/native/tickdb/data_writer.cpp:1056-1104 | any nested content is written as its raw bytes exactly when it fits the buffer and the depth limit |
| HeaderExpansion.ContainerWriter.FinishMessage | src/dxapi/native/tickdb/data_writer_impl.h:197-252 | the message is cut when it is to be trimmed, and headers are expanded when any grow, within the buffer; only then does the write pointer move to its end |
| HeaderExpansion.CutItems | src/dxapi/native/tickdb/data_writer_impl.h:197-208 | what trimming cuts off holds no container, so headers, growth and nesting stay |
| HeaderExpansion.MarkInOrder | src/dxapi/native/tickdb/data_writer.cpp:967-990 | the mark behind some content is that of its last container or reported field |
| HeaderExpansion.ContainerWriter.WriteBody | src/dxapi/native/tickdb/data_writer.cpp:1056-1196 | what is left of a message body, trimmed or whole, comes out as its reader expects it exactly when it fits and no long container stands inside another container; the write pointer ends behind what was written or, when a header was expanded, at the end of the message |
| Relay.Buffer.Place | src/tcp-proxy.cpp:641-655 | received bytes land behind the queue and do not disturb it |
| Relay.Buffer.CommitWrite | src/tcp-proxy.cpp:130-141 | the bytes join the queue and a whole read still fits behind it |
| Relay.Buffer.CommitRead | src/tcp-proxy.cpp:144-149 | a prefix leaves the queue |
| Relay.Buffer.Reset | src/tcp-proxy.cpp:152 | the queue is emptied, the counters remember |
| Relay.Buffer.Clear | src/tcp-proxy.cpp:155 | the queue is emptied and the buffer has its first size again |
| Relay.Buffer.MemCpy | src/tcp-proxy.cpp:161-163 | defined only on disjoint ranges |
| Relay.Buffer.Compact | src/tcp-proxy.cpp:158-171 | the queue survives and the plain copy is used only on disjoint ranges |
| Relay.Buffer.WriteSize | src/tcp-proxy.cpp:116 | there is always room for a whole read |
| Relay.Buffer.ReadSize | src/tcp-proxy.cpp:118 | as much as is queued, up to one write |
| Relay.SentIsPrefix | src/tcp-proxy.cpp:612-783 | at every moment of a run, what was sent to a side is a prefix of what came from the other |
| Relay.ClosedIsFinal | src/tcp-proxy.cpp:576-596 | no socket is closed twice, none is read or written after it was closed |
| Relay.DrainedBeforeClose | src/tcp-proxy.cpp:757-763 | an orderly close of one side comes only after the other has ended and everything it sent was delivered |
| Relay.NothingBeforeThePreload | src/tcp-proxy.cpp:660-678 | no host byte reaches the client before the preload amount arrived, the host ended, or the preload was dropped |
| Relay.GateAfter | src/tcp-proxy.cpp:635-722 | the preload target only falls to 0, and an open gate stays open |
| Relay.WrittenBehindGate | src/tcp-proxy.cpp:635-638 | the assertion in the paused-read branch holds in every reachable state, and a paused session with an open client has bytes to send |
| Relay.OpenGate | src/tcp-proxy.cpp:665-673 | the gate is opened only by enough bytes or the end of the host |
| Relay.LinkAfter | src/tcp-proxy.cpp:632-748 | one more event in the log and in what the sockets saw keeps them in agreement |
| Relay.DrainedGotAll | src/tcp-proxy.cpp:757-763 | after an orderly close of a side, all that the other one ever sent has gone to it |
| Relay.Socket.Recv | src/tcp-proxy.cpp:641 | what a receive call returns is exactly what is consumed |
| Relay.Socket.Send | src/tcp-proxy.cpp:732 | what a send call accepts is exactly the prefix that is delivered |
| Relay.Socket.Close | src/tcp-proxy.cpp:593 | the socket is closed once |
| Relay.Session.constructor | src/tcp-proxy.cpp:490-563 | a new session with two open sockets and nothing sent |
| Relay.Session.CloseSocket | src/tcp-proxy.cpp:593-594 | the closed socket is what the log says |
| Relay.Session.RecvFrom | src/tcp-proxy.cpp:641-654 | what the socket gave is what the log will say |
| Relay.Session.SendTo | src/tcp-proxy.cpp:732-741 | what the socket accepted is what the log will say |
| Relay.Session.KillConnection | src/tcp-proxy.cpp:576-596 | an open socket is closed and its readiness cleared, the rest stays |
| Relay.Session.ReadFrom | src/tcp-proxy.cpp:632-657 | the read is paused exactly when the preload is being delivered; otherwise one receive call asks for one read, and what the socket gave up is what the queue gained |
| Relay.Session.ReadOnce | src/tcp-proxy.cpp:640-656 | one receive call asks for one read, and what the socket gave up is what the queue gained |
| Relay.Session.TakeIn | src/tcp-proxy.cpp:641-657 | received bytes are queued; a side that is at its end or broken is closed |
| Relay.Session.Accept | src/tcp-proxy.cpp:646-654 | received bytes are queued and counted |
| Relay.Session.HoldBack | src/tcp-proxy.cpp:663-724 | host bytes wait exactly for the preload; a request waits for its end and decides whether to preload |
| Relay.Session.DropPreload | src/tcp-proxy.cpp:709-722 | the preload target falls to 0 |
| Relay.Session.Forward | src/tcp-proxy.cpp:732-748 | one send call offers the front of the queue; what the socket accepted, and nothing else, leaves the queue |
| Relay.Session.Settle | src/tcp-proxy.cpp:733-743 | accepted bytes leave the queue, a lasting failure closes the side, a temporary one changes nothing |
| Relay.Session.Deliver | src/tcp-proxy.cpp:739-742 | what was sent leaves the queue and is counted |
| Relay.Session.Relay | src/tcp-proxy.cpp:660-754 | when bytes are offered, how many, and what of them leaves the queue; what nobody can receive is discarded |
| Relay.Session.CheckError | src/tcp-proxy.cpp:617-627 | only a lasting error of an open side closes it |
| Relay.Session.CloseDrained | src/tcp-proxy.cpp:757-763 | the other side is closed exactly when this one is closed and has nothing left to deliver |
| Relay.Session.ReadBoth | src/tcp-proxy.cpp:632-657 | one receive call on every side that is ready and not paused |
| Relay.Session.SendBoth | src/tcp-proxy.cpp:660-754 | whatever is still queued for an open socket was offered to it, or may wait; the queue of an ended side shrinks |
| Relay.Session.Exchange | src/tcp-proxy.cpp:612-754 | success is reported exactly when a socket was called, failure for an error, and else idleness |
| Relay.Session.Process | src/tcp-proxy.cpp:612-783 | one round; it finishes exactly when both sides are closed, a half-closed session still has bytes to deliver, and each round of draining to a willing socket leaves fewer of them |
| Relay.Session.DeliveredIsPrefix | src/tcp-proxy.cpp:632-748 | at every moment a socket was given a prefix of what the other one said, and the queue is the rest |
| Relay.Session.DrainedSocketGotAll | src/tcp-proxy.cpp:757-763 | a socket that was closed in good order was given everything the other one said, and the other one is closed |
| Relay.Session.GateOnSockets | src/tcp-proxy.cpp:660-678 | the client socket is given nothing before the preload amount arrived on the host socket, the host ended, or the preload was dropped |
| Relay.Session.Undelivered | src/tcp-proxy.cpp:765-770 | the unread total of a buffer is the number of bytes that one socket gave and the other did not get |
| Relay.Session.Serve | src/tcp-proxy.cpp:612-783 | runs of any length: prefixes on both sockets, counters that tell exactly what was not delivered, and an end within as many rounds as bytes are queued, and one, once a side has ended and the other socket takes something of every send |
| Crc32.StepIsLinear | src/dxapi/native/platform/platform.cpp:92-114 | one shift-and-xor step is linear over exclusive or |
| Crc32.LookupIsEightSteps | src/dxapi/native/platform/platform.cpp:92-114 | eight bit steps are one shift and one table entry |
| Crc32.Table.Fill | src/dxapi/native/platform/platform.cpp:98-106 | the static table is filled once, each entry with eight steps of its index |
| Crc32.Table.EightSteps | src/dxapi/native/platform/platform.cpp:100-104 | the inner loop takes eight steps |
| Crc32.Table.Crc | src/dxapi/native/platform/platform.cpp:92-114 | for every buffer the table-driven checksum is the bit-at-a-time one |
| Crc32.FeedConcat | src/dxapi/native/platform/platform.cpp:108-113 | a checksum can be continued over a concatenation |
| Crc32.StepInjective | src/dxapi/native/platform/platform.cpp:92-114 | a step can be undone |
| Crc32.OneByteChangeDetected | src/dxapi/native/platform/platform.cpp:92-114 | changing any one byte of any buffer changes its checksum |
| Crc32.PolynomialIsStandard | src/dxapi/native/platform/platform.cpp:100 | the polynomial is the reflected one of the standard CRC-32: the powers 26, 23, 22, 16, 12, 11, 10, 8, 7, 5, 4, 2, 1 and 0 |
| Crc32.KnownChecksums | src/dxapi/native/platform/platform.cpp:92-114 | the checksum of nothing is 0 and that of the byte 0xFF is 0xFF000000 |
| FastDivide.BiasedDivision | src/dxapi/native/tickdb/common.h:469-485 | above the bias the unsigned detour is floor division and divisibility, without overflow |
| FastDivide.DivideExactDomain | src/dxapi/native/tickdb/common.h:479-485 | for operands of any two sizes the result is the floor quotient exactly from minus the bias up, and below it when the wrapped quotient is one less than a multiple of the dividend size |
| FastDivide.DivideSameSizeExactDomain | src/dxapi/native/tickdb/common.h:479-485 | for operands of one size exactly from minus the bias up, or for divisor 1 |
| FastDivide.DivisibleExactDomain | src/dxapi/native/tickdb/common.h:470-476 | for operands of any two sizes the divisibility test is right exactly from minus the bias up, for divisors of the wider word size, and below the bound except at two distances from it |
| FastDivide.DivideFailsBelowBias | src/dxapi/native/tickdb/common.h:479-485 | the value just below the bound fails for every divisor above 1 |
| FastDivide.DivisibleFails | src/dxapi/native/tickdb/data_writer.cpp:593-594 | a concrete count of nanoseconds that passes for whole milliseconds |
| FastDivide.InRangeExactDomain | src/dxapi/native/tickdb/common.h:455-458 | the single unsigned comparison is the range test exactly when the bounds are ordered or the value lies between the swapped ends |
| FastDivide.InRangeFails | src/dxapi/native/tickdb/common.h:455-458 | a concrete value that is found in a reversed range |
| Strings.Split | src/dxapi/native/platform/platform.cpp:120-140 | stores the pieces, leaves the rest of the array alone and returns their number; nothing without source, destination or room |
| Strings.SplitRoundTrip | src/dxapi/native/platform/platform.cpp:120-140 | joining the pieces gives the source, all but the last are free of separators, and there are min(n, 1 + separators) of them |
| Strings.SplitUnique | src/dxapi/native/platform/platform.cpp:120-140 | no other list of pieces has these properties |
| Strings.ReplaceSwapsSeparators | src/dxapi/native/platform/platform.cpp:162-180 | replacing is joining with the new text what the old one separates |
| Strings.StretchesArePatternFree | src/dxapi/native/platform/platform.cpp:162-180 | what stands between the replaced occurrences does not contain the pattern |
| Strings.ReplaceByCopy | src/dxapi/native/platform/platform.cpp:162-180 | wherever the copying loop ends, it computes the replacement |
| Strings.ReplaceInPlace | src/dxapi/native/platform/platform.cpp:144-159 | for equal lengths the in-place version leaves the same text as the copying one and nothing else changed; otherwise it reports why not |
| Strings.ReplaceLoop | src/dxapi/native/platform/platform.cpp:150-158 | the search-and-overwrite loop ends |
| Strings.ReplaceAtFirst | src/dxapi/native/platform/platform.cpp:144-180 | replacing from the leftmost occurrence on equals replacing from the front |
| Strings.EmptyPatternNeverAdvances | src/dxapi/native/platform/platform.cpp:144-180 | an empty pattern matches in place forever |
| Unchunk.HexDigit | src/unchunk/unchunk.cpp:46-50 | the wrapping unsigned comparisons recognise exactly the digits of both cases |
| Unchunk.Program.Copy | src/unchunk/unchunk.cpp:36-43 | copies what there is up to the size and reports exactly whether all was copied |
| Unchunk.Program.ParseSize | src/unchunk/unchunk.cpp:92-96 | the size the digits spell, modulo the word |
| Unchunk.Program.ReadCrLf | src/unchunk/unchunk.cpp:98-100 | what stands there and how much was consumed |
| Unchunk.Program.ParseChunk | src/unchunk/unchunk.cpp:91-114 | one round of the chunk loop |
| Unchunk.Program.ParseChunks | src/unchunk/unchunk.cpp:90-126 | the loop ends and does what the grammar says |
| Unchunk.Program.Execute | src/unchunk/unchunk.cpp:83-126 | output and exit of the program on every input |
| Unchunk.UnchunkInvertsCoding | src/unchunk/unchunk.cpp:58-126 | any list of non-empty chunks, digits in either case, is turned into its concatenation |
| Unchunk.CutCodingIsReported | src/unchunk/unchunk.cpp:58-126 | on an encoding cut short anywhere the output is a prefix of the body and the error path is taken |
| Unchunk.LeadingCrLfIsRefused | src/unchunk/unchunk.cpp:83-95 | an input with a leading line end always fails, since the line feed is not passed |
| Streams.InputStreamPreloader.Read | src/dxapi/native/io/streams.cpp:33-60 | removes a prefix of the stream of allowed size, as much of the buffer as may be taken and only then from the source |
| Streams.InputStreamPreloader.TryRead | src/dxapi/native/io/streams.cpp:69-103 | removes a prefix of the buffer; neither counts nor reaches the source |
| Streams.InputStreamPreloader.Cleanup | src/dxapi/native/io/streams.cpp:126-136 | the unread bytes move to the front |
| Streams.InputStreamPreloader.Set | src/dxapi/native/io/streams.cpp:145-153 | bytes placed at the end of the buffer join the stream, and the read pointer stays inside exactly when the placement does not end before it |
| Streams.InputStreamPreloader.Preload | src/dxapi/native/io/streams.cpp:268-314 | the stream of buffer and source is unchanged exactly when the source did not end early or nothing was buffered before |
| Streams.InputStreamPreloader.Append | src/dxapi/native/io/streams.cpp:278-312 | the read loop ends with all that was asked for or all there is |
| Streams.StreamAfterPreload | src/dxapi/native/io/streams.cpp:268-314 | what of the stream survives a preload |
| Streams.DisconnectKeepsBuffer | src/dxapi/native/io/streams.cpp:303-304 | on a disconnection the buffer is kept whole exactly when it was empty before |
| Streams.DisconnectLosesLastByte | src/dxapi/native/io/streams.cpp:303-304 | a concrete byte that is lost |

## Left out

- PackedAlphanumeric.ToAlphanumericInt64: models the shift of the length at 64-bit width; the source shifts a
  32-bit value by 60, which C++ leaves undefined (src/dxapi/native/tickdb/data_reader.cpp:488).
- DataReader.DataReaderMsg.GetDecimal: does not model the numeric value of a decimal, only its header and mantissa bytes; floating-point
  rounding is not the point of the reader.
- DataReader.DataReaderMsg.NextMessage: is stated for depths below 16; at depth 16 the source reads past its array of container offsets.
- DataReader.DataReaderMsg.Bytes: is stated for views up to the buffer size, which is what the source asserts of its callers.
- Relay.Session.HoldBack: takes the classification of the client's first bytes (a POST request, its end, a select request) as
  any function of these bytes, so that the results hold for every classification.
- Relay.Session.Serve: promises an end for sockets that take something of every send; what a socket accepts and delivers is
  otherwise free.
- DataWriter.ReadHeader: is the header that the loader writes; the messages of a cursor hold a stream byte behind the type,
  which the server adds.
- Strings.ReplaceInPlace: excludes only the inputs on which the source loop never ends, an empty pattern and replacement
  in a terminated string; for them there is `EmptyPatternNeverAdvances`.
- Strings.ReplaceByCopy: excludes an empty pattern in a string that is not empty, for the same reason.
- Strings.Split: excludes a NUL separator with room for two strings, for which the source reads behind the end of the string.
- MessageBlock.TickCursor.ReadMessageInBlock: takes a message left with all sixteen containers open as failed; the source
  then reads behind its array of container offsets.
- PackedAlphanumeric.WordRoundTrip: is stated for words whose length fits the eight bytes of the store; for longer ones
  the source moves its write pointer past what it stored.
- FastDivide.DivideExactDomain: is stated for types of at least the size of an `int`; sums of narrower ones are signed.
- States after an exception: the source leaves pointers advanced and depths decremented.
- Compressed timestamps: their constants and size table are not part of this model.
- The reader over HTTP chunks, the loader's threads and flushing, the cursor's message dispatch, and schemas.
- Nullable floating-point reads (which report NULL as a value) and the floating-point writers.
- The check that a container is closed by the call of its own kind when writing, and the wide-character UTF-8 writer.
- NestedBodies.WriteFields: takes a field that is not a container as its finished bytes and its report; the calls that
  produce these bytes are those of `DataWriter`, `PackedIntegers` and `AlphanumericWriter`, and intervals stand as they are
  meant to be stored, not as `IntervalExactDomain` finds them.
- The 32-bit `writeAlphanumericInt` and validation of alphanumeric values.
- The array of fixed size behind the reader's container stack is a sequence here; the growing vector behind the
  relay's buffer is one too.
- Sockets, select, address resolution, logging, files and clocks: they appear as results that may be anything
  their interface allows, or not at all.
