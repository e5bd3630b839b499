# Verified model of libtrading

Five parts of libtrading, modelled in Dafny and proved: the matching engine of the simulator, the market-data books that
are joined to running feeds, the FAST codec, FIX serialization and parsing, and the sequence numbers of a FIX session.

Each part has a specification on values, with the laws proved about it, and classes and methods that work as the C code
does, on arrays, buffers and linked records, with contracts that tie them to the specification.

| part | specification and laws | in place |
|---|---|---|
| engine | `MatchSpec`, `MatchLaws` | `Engine` |
| books | `BookSpec`, `BookRules`, `ReplayLaws`, `JoinLaws`, `JoinExact`, `JoinProgress`, `RptSeqLaws`, `PriceKeys` | `LevelBook`, `FastBook` |
| feeds | `FeedArbitration`, `FeedDeliveries` | `FeedArbitration.FeedSet` |
| FAST bytes | `StopBit`, `PresenceMap` | `ByteBuffer`, `FastReader`, `FastWriter` |
| FAST fields | `FastField`, `FieldEncoder`, `FieldRoundTrip`, `FastRules`, `FastFlat`, `FastMessage`, `FastRows`, `FastSequence`, `FastResume` | `FastCell`, `FastElement`, `FastGroup`, `FastOutCell` |
| FAST streams | `FastDecoder`, `FastChunks`, `FastEncoder`, `FastStream`, `FastRoundTrip`, `FastHead`, `FastProgress`, `FastShift`, `FastLoad` | `FastReceiver`, `FastFeed`, `FastSender`, `FastOpen` |
| FIX | `Digits`, `FixWire`, `FixLayout`, `FixParse`, `FixAccept`, `FixRoundTrip`, `FixStream`, `FixResync`, `FixAgree`, `FixBounds` | `Itoa`, `FixWire`, `FixTemplate`, `FixReader` |
| FIX session | `FixSession`, `FixAnswers` | `FixSession.Session` |

`dafny verify dfyconfig.toml` checks all of it.

The main results:

- The engine, with its doubly linked levels and its two cursors that are only bounds, is a matcher that scans all orders
  by price and time (`Engine.Replay`), and that one conserves every order's size (`MatchLaws.Conservation`).
- A book joined to lossy feeds is the replay of the exchange's history exactly if the snapshot's RptSeq lies among those
  that were buffered (`JoinExact.JoinIsRightExactly`).
- What FAST senders send is what a FAST session returns, from the first message on and however the bytes are cut
  (`FastOpen.SentIsReturnedFromStart`); exactly which fields may be cut anywhere (`FastResume.ResumesExactly`).
- A FIX template that is patched in place, with its sum split into a cached and a fresh part, sends the message
  serialized from scratch exactly while its number fits (`FixTemplate.Template.Unparse`), and the parser returns what
  was written (`FixAgree.SerializeIsRead`, `FixAgree.TemplateIsRead`).
- The parser accepts exactly the bytes in which a message stands with a true length and the right checksum
  (`FixAccept.AcceptsExactly`).
- Sequences of FAST are decoded element by element, although the loops keep their place when bytes run out
  (`FastRows.SequenceIsElements`), and hold what a peer sent (`FastSequence.SequenceReadsBack`).
- Over every run of messages a FIX session delivers in order (`FixSession.DeliveredInOrder`), and after a reset the
  message it names is the next one that counts, exactly if it is above the expected number
  (`FixAnswers.ResetNamesNextExactly`).

## Findings

What the code does not do, each with the exact condition under which it does.

- A successful join can show a wrong book. `fast_books_join` compares message numbers, but `next_increment` accepts an
  increment from every feed in one call and hands on the first only (lib/proto/fast_book.c:510-520), so messages between
  the numbers may be missing. A join is right if and only if the snapshot's RptSeq lies between the one before the first
  buffered increment and the last (`JoinExact.JoinIsRightExactly`), which the loop could test before it merges.
  `JoinLaws.DroppedMessageGoesUnnoticed` is a feed of four messages; `JoinExact.LossyTurnsAreReceived` and
  `JoinExact.ThreeTurnsAreReceived` show two feeds from which `next_increment` hands on just that.
- Accepted increments are dropped: with one feed never, with more whenever a call accepts two
  (`FeedArbitration.NothingIsLostExactly`, `FeedArbitration.HandsOnAllUnlessTwo`,
  `FeedArbitration.SecondIncrementIsDropped`).
- A message with number 0 is accepted again and again, because 0 is also the counter's mark for none yet; a number keeps
  the order if and only if it is not 0 (`FeedArbitration.ZeroBreaksOrderExactly`, `FeedArbitration.ZeroIsAcceptedTwice`).
  The same holds for RptSeq 0 (`RptSeqLaws.ZeroBreaksCountExactly`, `RptSeqLaws.NextNumberIsForced`).
- Hash table and tree look at the lower 32 bits of a price. Updates of some prices always leave the right levels if and
  only if no two of them agree in those bits (`PriceKeys.PricesShowExactly`); the histories of the join results have
  prices of 64 bits under that condition (`ReplayLaws.KeysApart`).
- The decoder of an individual decimal changes the exponent before it knows that the mantissa has arrived. With an
  increment or a delta it is counted twice when the bytes run out in between (`FastResume.CountedTwice`). A sequence
  that has to wait puts the bit of the outer map back to before its length, which it does not decode again
  (`FastResume.LengthBitIsLost`). These are all the fields that cannot be cut (`FastResume.ResumesExactly`).
- A decimal with an increment operator is encoded as nothing at all and rejected by the decoder; strings with an
  increment or a delta cannot be encoded. All other operators bring back what is sent (`FieldRoundTrip.OperatorsExactly`).
- Unsigned numbers from 2^63 on and signed ones outside 63 bits do not survive the wire although the fields have 64 bits
  (`StopBit.UintExactly`, `StopBit.IntExactly`).
- Template identifiers pass through a 32-bit int: a template is found if and only if its identifier has 31 bits
  (`FastDecoder.IdentifiersExactly`).
- `rest_of_message` writes fields without looking at their number into room for 48: it stays inside if and only if no
  more than 48 fields are kept (`FixBounds.InsideExactly`, `FixBounds.SerializedInside`, `FixBounds.TemplateInside`),
  which a message with a body of 255 bytes can exceed (`FixBounds.OneFieldTooMany`).
- A FIX template has six digits for the sequence number: from 10^6 on the number runs over the delimiter behind it and
  what is sent is no longer the message (`FixTemplate.Template.Unparse`).
- A SequenceReset to the number that is expected anyway takes that number itself: the next message that counts is the one
  after, so the message the reset announces ends the session. A reset names the next message exactly if its number is
  above the expected one (`FixAnswers.ResetNamesNextExactly`).
- Text without an equals sign hides the message behind it: `parse_tag` looks for the next equals sign and finds that of
  the BeginString. A message is found behind a piece of text exactly if the text has an equals sign of its own
  (`FixResync.TextHidesExactly`).
- A message whose checksum is right, but one of whose fields cannot be read, is returned without any field
  (`FixAccept.BrokenFieldsAreLost`); all are returned if they read up to a CheckSum (`FixAccept.FieldsAreReturned`).
- A decimal size with a negative exponent is refused even if it is a whole number; a size is taken exactly if it is whole
  and its exponent is not negative (`FastBook.DecimalToInt`, `BookRules.ReadExactly`).
- The expected number of a FIX session drops to 0 after the largest value of the counter, and only then
  (`FixSession.NeverDropsUnlessWrapping`).

## Model

| member | source | states |
|---|---|---|
| Engine.Replay | tools/sim/engine.c:55-179 | every run of limit orders and cancels on the linked levels with their two cursors is the run of a matcher that scans all orders for the best price and then the earliest id: the same trades, sizes and refusals |
| Engine.OrderBook.DoLimit | tools/sim/engine.c:136-157 | one limit order does to the orders and the trades what the scanning matcher does, and is refused in the same cases |
| Engine.OrderBook.DoCancel | tools/sim/engine.c:159-179 | the same for a cancel |
| Engine.OrderBook.Match | tools/sim/engine.c:55-134 | the two matching loops, which follow the cursors, trade as the scan does, and every list and both cursors are right afterwards |
| Engine.OrderBook.Sweep | tools/sim/engine.c:60-96 | the inner loops trade with the orders of the level under the cursor until it is empty or the order is filled, as the next trades of the scan |
| Engine.LinkedExactlyWhileLive | tools/sim/engine.c:14-46 | an accepted order is linked exactly while it has size left, once, and at its own level |
| Engine.CursorsSeparate | tools/sim/engine.c:55-134 | live bids are at or below best_bid, which is below best_ask, which is at or below the live asks |
| MatchLaws.NeverCrossed | tools/sim/engine.c:55-157 | in no run does a resting buy meet the price of a resting sell |
| MatchLaws.Conservation | tools/sim/engine.c:48-179 | in every run, for every order: accepted size = size left + size traded + size cancelled |
| MatchLaws.ExecutesExactly | tools/sim/engine.c:55-134 | an incoming order trades exactly the smaller of its size and all that rests at prices it crosses |
| MatchLaws.PriorityIsKept | tools/sim/engine.c:55-134 | if an order lost size, every order ahead of it in price and time is used up |
| MatchLaws.MatchExhausts | tools/sim/engine.c:55-134 | an order with size left crosses nothing that rests |
| MatchLaws.OrderIsTakenExactly | tools/sim/engine.c:136-157 | in every run a limit order is taken if and only if there is room, its level exists and its size is at least 1; then there is one order more, otherwise nothing changes |
| MatchLaws.CancelTakesExactly | tools/sim/engine.c:159-179 | in every run a cancel takes all that is left of the order it names and nothing else; it changes something if and only if that order has something left |
| MatchLaws.BestPriceFirst | tools/sim/engine.c:55-134 | price-time priority in plain prices: while a cheaper or earlier offer has anything left a buy takes nothing from another, and the same for a sell |
| LevelBook.Side.Modify | lib/order_book.c:81-127 | setting a level in hash, tree and sorted list together is one update of a map from key to level, refused exactly if the level has this number or a later one; all three indexes still hold the same levels in ascending price |
| LevelBook.Side.Delete | lib/order_book.c:129-165 | taking a level out of all three indexes takes its key out of the map |
| LevelBook.Side.Sweep | lib/proto/fast_book.c:659-682 | walking the list and deleting what has no size leaves the map without its tombstones |
| PriceKeys.PricesShowExactly | lib/order_book.c:68-127 | every history of updates of some prices leaves the right levels if and only if no two of the prices agree in their lower 32 bits |
| ReplayLaws.MergeIsReplay | lib/proto/fast_book.c:129-200 | a faithful snapshot taken within the buffered events is never refused, and merged and swept the book is the replay of the whole history up to the last buffered event |
| ReplayLaws.JoinWindowExact | lib/proto/fast_book.c:292-382 | for one merge: right for every history and every faithful snapshot if and only if the snapshot lies within the buffered events |
| JoinExact.JoinRunIsRightWithin | lib/proto/fast_book.c:568-695 | over every run of the join loop, whatever the feeds lost: a join that succeeds has buffered consecutive events from the first RptSeq that reached the book, and is the replay if the snapshot was taken among them |
| JoinExact.JoinIsRightExactly | lib/proto/fast_book.c:568-695 | for the whole loop: successful joins with first RptSeq a+1, last RptSeq n and snapshot RptSeq s are right for all books, histories, losses and snapshots if and only if a <= s <= n |
| JoinExact.ThreeTurnsAreReceived | lib/proto/fast_book.c:501-540 | the increments of the wrong joins are what next_increment hands on when two feeds deliver every number |
| JoinLaws.JoinIsReplay | lib/proto/fast_book.c:568-695 | if no increment of the book is lost, every join that succeeds leaves the replay of the whole history up to the last increment |
| JoinLaws.EntriesTrack | lib/proto/fast_book.c:43-127 | after a join every further increment keeps the book equal to the replay |
| JoinLaws.DroppedMessageGoesUnnoticed | lib/proto/fast_book.c:501-540 | a concrete feed of four messages: one increment dropped by next_increment, all numbers fit, the join succeeds and shows a deleted price |
| RptSeqLaws.EveryRunIsConsecutive | lib/proto/fast_book.c:202-290 | over every run of increments, merges, joins, sweeps and recoveries without a failure the updates of a book since its last clear are numbered in steps of one, and its counter is the last of them |
| RptSeqLaws.EveryRunIsUpToDate | lib/proto/fast_book.c:43-127 | over every such run each level that an update set shows, by size and number, the last update that named it |
| RptSeqLaws.NextNumberIsForced | lib/proto/fast_book.c:268-277 | an update with another number than the next is refused exactly while the counter is not 0 |
| RptSeqLaws.ZeroBreaksCountExactly | lib/proto/fast_book.c:268-277 | an accepted update keeps the count if and only if its number is not 0 |
| FastBook.BookSet.Join | lib/proto/fast_book.c:568-695 | the loop over the set of books, in place, is the join the results above speak of |
| FastBook.BookSet.ApplyIncrement | lib/proto/fast_book.c:202-290 | the loop over the entries, in place, is the specified one |
| FastBook.BookSet.ApplySnapshot | lib/proto/fast_book.c:292-382 | the same for a snapshot |
| FastBook.Book.Clear | include/libtrading/proto/fast_book.h:85-94 | both sides are emptied and both counters set to 0; nothing else changes |
| FastBook.PriceAlign | lib/proto/fast_book.c:20-41 | the loops return m if and only if m ticks are the same number as the price, and nothing if no m is |
| FastBook.DecimalToInt | lib/proto/fast_book.c:6-18 | the loop returns n if and only if n is the same number as the decimal and its exponent is not negative |
| BookRules.ReadExactly | lib/proto/fast_book.c:43-107 | an entry names a level if and only if it is a bid or an offer whose price is a whole number of ticks and whose size is whole; price, size and side of the level are these |
| BookRules.TakenExactly | lib/proto/fast_book.c:256-290 | which entries are taken: session, next RptSeq, kind of update and a level that is not newer, both directions |
| BookRules.UpdateChangesOne | lib/proto/fast_book.c:43-127 | an update sets or removes the one level it names; every other level, and everything else of the book, stays |
| BookRules.LocatesFirst | lib/proto/fast_book.c:220-254 | a message is for the first book with its identifier, or whose symbol its own begins with |
| BookRules.MessageStopsAtFirst | lib/proto/fast_book.c:202-290 | a message is taken if and only if every entry is; the first that is not ends it |
| BookRules.SnapshotEntryExactly | lib/proto/fast_book.c:129-200 | which snapshot entries are refused, and that the others only fill in missing levels |
| BookRules.SnapshotActivatesExactly | lib/proto/fast_book.c:335-382 | when a snapshot brings a book into use |
| BookRules.HeldIsUsedExactly | lib/proto/fast_book.c:612-629 | a held snapshot is used for a book if and only if the first book it names has the same identifier or the same whole symbol |
| JoinProgress.JoinCompletesExactly | lib/proto/fast_book.c:588-657 | once a snapshot that suits is held, the join succeeds if and only if the increments reach it; until then it waits |
| JoinProgress.TurnFailsExactly | lib/proto/fast_book.c:588-657 | a turn of the join fails for exactly these reasons: a feed fails, an increment is refused, the held snapshot is malformed or refused |
| JoinProgress.EmptySnapshotIsReplaced | lib/proto/fast_book.c:607-653 | after a merge the snapshot is kept unless it says that the book is empty; then the next turn asks for another |
| FeedArbitration.FeedSet.NextIncrement | lib/proto/fast_book.c:501-540 | polling all feeds in place is the specified call, and it reports a gap exactly when every feed is past the counter |
| FeedArbitration.GapIsReportedExactly | lib/proto/fast_book.c:501-540 | a call fails for a gap if and only if all feeds have seen a number past the counter |
| FeedArbitration.EveryRunIsOrdered | lib/proto/fast_book.c:384-540 | over every interleaving of arrivals, calls and restarts: accepted numbers are consecutive, handed-on numbers strictly increase, and gap mode is on whenever all feeds are past the counter |
| FeedArbitration.ZeroBreaksOrderExactly | lib/proto/fast_book.c:408-424 | taking a number as the next keeps that order if and only if the number is not 0 |
| FeedArbitration.HandsOnAllUnlessTwo | lib/proto/fast_book.c:501-540 | a call hands on all that it accepts if and only if it accepts at most one increment |
| FeedArbitration.NothingIsLostExactly | lib/proto/fast_book.c:510-520 | with n feeds every call in every good state hands on all that it accepts if and only if n = 1 |
| FeedDeliveries.CallReturnsIncrements | lib/proto/fast_book.c:384-540 | a call returns a number only if an increment with that number is at the head of a feed, never that of a heartbeat or another quiet message |
| FeedDeliveries.HandedOnHasArrived | lib/proto/fast_book.c:384-540 | over every run every number that was handed on has arrived as an increment |
| FeedDeliveries.FailsExactly | lib/proto/fast_book.c:403-453 | receiving fails if and only if the message has no number, or is accepted and its type is missing or not expected |
| FeedDeliveries.TakesOne | lib/proto/fast_book.c:393-409 | a feed that is past the counter is left alone; any other gives up one delivery and remembers its number; no other feed is touched |
| FeedDeliveries.LossIsReportedExactly | lib/proto/fast_book.c:501-540 | when no feed brings the next number, the call reports a gap if and only if every one of them has skipped it |
| StopBit.UintExactly | lib/proto/fast_message.c:10-39 | the unsigned numbers that survive transfer_uint and parse_uint are exactly those below 2^63 |
| StopBit.IntExactly | lib/proto/fast_message.c:41-76 | the signed numbers that survive are exactly those from -2^62 to 2^62 - 1 |
| StopBit.UintShortest | include/libtrading/proto/fast_message.h:279-299 | no bytes that read as a number are shorter than those written for it |
| StopBit.IntShortest | include/libtrading/proto/fast_message.h:255-277 | the same for signed numbers |
| FastReader.ParseUint | lib/proto/fast_message.c:10-39 | the loop over the buffer is the specified reading, with the cursor behind it |
| FastReader.ParseString | lib/proto/fast_message.c:85-111 | the same for a string, with what stands in the array when the bytes run out |
| FastWriter.TransferUint | lib/proto/fast_message.c:2029-2061 | the switch that falls through writes the specified bytes, or fails without room |
| FastWriter.TransferInt | lib/proto/fast_message.c:1841-1873 | the same for signed numbers |
| PresenceMap.MapHolds | include/libtrading/proto/fast_message.h:221-229 | a map that was filled bit by bit has exactly the first 56 of the bits |
| PresenceMap.MapSurvives | lib/proto/fast_message.c:2582-2595 | cutting the bytes that are zero and adding the stop bit changes no bit that parse_pmap finds |
| FieldRoundTrip.LeafRoundTrip | lib/proto/fast_message.c:157-569 | for every operator and kind of field that both sides support: what is encoded decodes to the value that was sent, and the two dictionaries stay coupled |
| FieldRoundTrip.OperatorsExactly | lib/proto/fast_message.c:2362-2497 | whatever a caller fills in comes back if and only if operator and kind are among those |
| FastEncoder.FieldReadsBack | lib/proto/fast_message.c:2499-2537 | the same for whole fields with their bits in the map, individual decimals included |
| FastField.LeafResumes | lib/proto/fast_message.c:157-1151 | a field that had to wait is decoded, when more bytes have come, as if nothing had happened |
| FastResume.ResumesExactly | lib/proto/fast_message.c:1153-1493 | a field can be cut anywhere if and only if it is no individual decimal whose exponent is an increment or a delta before a mantissa on the wire, no sequence of such, and no sequence whose length takes a bit while an element can wait |
| FastChunks.ChunksDoNotMatter | lib/proto/fast_message.c:1507-1628 | any stream, well formed or not, cut anywhere into any number of pieces gives the messages, dictionaries and end of the stream in one piece |
| FastRoundTrip.StreamIsDelivered | lib/proto/fast_message.c:2539-2601 | any list of messages within the contract is decoded in order, field by field, to the last byte |
| FastRoundTrip.PiecesAreDelivered | lib/proto/fast_message.c:1507-1628 | the same when the bytes arrive in pieces |
| FastLoad.LoadedStreamIsDelivered | lib/proto/fast_template.c:145-250 | the same from the first message on, with templates as they are loaded |
| FastDecoder.IdentifiersExactly | lib/proto/fast_message.c:1495-1505 | a template is found by its identifier if and only if the identifier has 31 bits |
| FastShift.RunMoves | lib/buffer.c:204-218 | decoding does not depend on the bytes before the cursor, so compacting changes nothing |
| FastCell.Cell.Decode | lib/proto/fast_message.c:157-1151 | the switch over the operators, in place, is the specified decoding of an int, uint, string or decimal |
| FastElement.Pair.Decode | lib/proto/fast_message.c:1153-1191 | the same for an individual decimal |
| FastGroup.Group.Decode | lib/proto/fast_message.c:1364-1493 | the nested loops over elements and fields, which keep their place when the bytes run out, are the specified decoding of a sequence |
| FastReceiver.Receiver.Decode | lib/proto/fast_message.c:1507-1628 | fast_message_decode in place, with its rollback, leaves message, session and cursor as the specified run does |
| FastOutCell.OutCell.Encode | lib/proto/fast_message.c:1875-2497 | the encoding of one field in place is the specified one |
| FastSender.Sender.Encode | lib/proto/fast_message.c:2539-2601 | fast_message_encode in place succeeds exactly if no field is refused and both buffers have room, and then leaves map, identifier and fields in them |
| FastSender.Sender.SentIsMessage | lib/proto/fast_message.c:2582-2601 | the two buffers, one after the other, are the message of the stream theorem |
| FastFeed.Link.Recv | lib/proto/fast_session.c:90-115 | after every call: what was returned is what the received bytes hold, and a call without a message has returned all of it |
| FastFeed.SentIsReturned | lib/proto/fast_session.c:90-115 | from encoder to receiver, however the bytes are cut: what is returned is the beginning of what was sent, and all of it once all has arrived |
| FastOpen.SentIsReturnedFromStart | lib/proto/fast_template.c:514-557 | the same for a new session and new senders, with no hypothesis about their dictionaries |
| FastOpen.Open | lib/proto/fast_session.c:18-76 | a session as it is made holds the dictionaries of the templates |
| FastRows.SequenceIsElements | lib/proto/fast_message.c:1364-1493 | the nested loops, which keep their place, are element-by-element decoding: element j is in row j, each with the dictionary the one before it left, the other rows are untouched, and lengths that are none, too long or zero end as they should |
| FastSequence.SequenceReadsBack | lib/proto/fast_message.c:1364-1493 | what a peer sends of a sequence of 1 to 127 elements is decoded to these elements: field k of element j shows the value sent for it |
| FastRules.NumbersDenote | lib/proto/fast_message.c:10-76 | a number is the seven bits of its bytes in a row, in two's complement of 64 bits if it is signed |
| FastRules.StopBitEnds | lib/proto/fast_message.c:10-155 | numbers, strings and maps end with the first stop bit, wait if the bytes end before, and are bad if it is too far: 9, 10, 255 and 8 bytes, both directions |
| FastRules.NotSentIsDecoded | lib/proto/fast_message.c:157-1151 | a field whose bit is not set is what section 6.3 of FAST 1.1 makes of its operator, its initial value and its dictionary entry, errors included |
| FastRules.NumberIsDecoded | lib/proto/fast_message.c:157-569 | an optional number is one nearer to zero than it is sent, and zero is none |
| FastRules.FirstDeltaIsToInitial | lib/proto/fast_message.c:157-569 | the first difference in a session is one to the initial value of the template, or to zero |
| FastRules.DecimalIsDecoded | lib/proto/fast_message.c:938-1151 | exponents beyond 63 are errors; else exponent and mantissa are added to the base |
| FastRules.PairIsDecoded | lib/proto/fast_message.c:1153-1191 | an individual decimal: no mantissa after an exponent that is none, and errors for one that is mandatory or beyond 63 |
| FastRules.StringDeltaIsDecoded | lib/proto/fast_message.c:800-880 | a difference of strings replaces characters at the end, or at the front if it is negative; an error if and only if too few are there or too many result |
| FastRules.CutStringCovers | lib/proto/fast_message.c:85-111 | a string whose end has not arrived already covers the front of the one before it |
| FastHead.UnnamedIsRead | lib/proto/fast_message.c:1534-1552 | a message that does not name its template is one of the template before it |
| FastHead.PreambleIsSkipped | lib/proto/fast_message.c:1523-1532 | a message behind a preamble is decoded as one without, and waited for until the preamble is there |
| FastProgress.NeverStalls | lib/proto/fast_message.c:1507-1628 | whenever the decoder waits, fewer than 255 bytes, or less than a preamble, are unread |
| FieldRoundTrip.RefusedExactly | lib/proto/fast_message.c:1875-2497 | which fields the encoder refuses |
| FieldRoundTrip.NothingIsSentExactly | lib/proto/fast_message.c:1875-2497 | which fields the encoder sends no byte for |
| FixAccept.FieldExactly | lib/proto/fix_message.c:131-205 | match_field reads exactly digits that denote the tag, an equals sign, a value without delimiter, a delimiter |
| FixAccept.AcceptsExactly | lib/proto/fix_message.c:328-438 | a candidate is accepted if and only if BeginString, a BodyLength of 1 to 1280 and a known MsgType stand there, and where BodyLength points a CheckSum field states the sum of all bytes before it |
| FixAccept.ReturnedStands | lib/proto/fix_message.c:440-482 | whatever is returned stands in the bytes: its length and its checksum are right |
| FixAccept.WaitsForBytes | lib/proto/fix_message.c:440-482 | a candidate is incomplete only at the end of the bytes or if BodyLength announces more than there are |
| FixAccept.FieldsAreReturned | lib/proto/fix_message.c:271-309 | all fields up to the first CheckSum are returned in order, each with the value its tag says, and the last sequence number |
| FixAccept.BrokenFieldsAreLost | lib/proto/fix_message.c:271-309 | if the fields do not read up to a CheckSum, none of them is returned |
| FixRoundTrip.ChecksumDecides | lib/proto/fix_message.c:328-370 | head, body and any checksum of three digits, with a true length: accepted if and only if that is the byte sum, or sums are not looked at; otherwise skipped as a whole |
| FixAgree.SerializedSumDecides | lib/proto/fix_message.c:328-370 | the same for what fix_message_unparse writes |
| FixLayout.SerializedText | lib/proto/fix_message.c:636-686 | the bytes of a message tag by tag: 8, 9, 35, 49 sender, 56 target, 34, 52, fields, 10 |
| FixLayout.RenderedText | lib/proto/fix_template.c:90-153 | the bytes that a template sends, tag by tag |
| FixLayout.TypeTextIs | lib/proto/fix_message.c:22-51 | the message types as FIX writes them |
| Digits.ReadsPrinted | lib/proto/fix_message.c:97-129 | fix_atoi64 and fix_uatoi read back what was printed, padded or signed |
| Digits.PaddedShape | lib/itoa.c:117-131 | a padded number: a minus if it is negative, zeros, its digits, as long as was asked or as it has to be |
| Itoa.LogIsLength | lib/itoa.c:14-28 | uilog_10 is the number of digits for every number of 32 bits |
| Itoa.UitoaGeneral | lib/itoa.c:30-51 | the pairs of digits written from the back are the numeral, and nothing else in the array changes |
| Itoa.ChecksumToA | lib/itoa.c:92-108 | three digits for every checksum |
| Itoa.LitoaZpad | lib/itoa.c:110-131 | the padded number, built backwards and reversed in place |
| FixWire.MessageUnparse | lib/proto/fix_message.c:636-686 | the two buffers hold the message: its head with the true length, its body, and the sum of all bytes before the trailer |
| FixTemplate.Template.Prepare | lib/proto/fix_template.c:90-122 | the buffer holds the template as a row of pieces, the markers stand at the pieces to patch and the cached sum is that of the others |
| FixTemplate.Template.UpdateTime | lib/proto/fix_template.c:124-129 | patching both times keeps that |
| FixTemplate.Template.Unparse | lib/proto/fix_template.c:131-153 | after any number of sends and time updates, what is sent equals the message serialized from scratch if and only if the sequence number is below 10^6, and then the template can be sent again |
| FixParse.TypeOfText | lib/proto/fix_message.c:19-95 | reading a message type inverts the table of types |
| FixParse.ParseIsOfCandidate | lib/proto/fix_message.c:440-482 | what is returned is the reading of one candidate, and an incomplete one keeps every byte from its start |
| FixReader.Message.Parse | lib/proto/fix_message.c:440-482 | the loop over candidates in place is the specified parsing; garbled rounds leave fewer bytes, an incomplete one restores the cursor |
| FixAgree.SerializeIsRead | lib/proto/fix_message.c:440-482 | fix_message_parse returns type, sequence number, ids, time and all fields in order of what fix_message_unparse wrote, wherever it stands |
| FixAgree.TemplateIsRead | lib/proto/fix_template.c:131-153 | the same for what a template sends |
| FixStream.StreamIsRead | lib/proto/fix_message.c:440-482 | a stream of messages is read message by message to its end |
| FixStream.StreamResumes | lib/proto/fix_message.c:440-482 | cut anywhere it is read as if it had not been |
| FixResync.GarbledSkips | lib/proto/fix_message.c:187-205 | a garbled candidate fails at one field, the first that is not as a message has it, and reading goes on behind the delimiter of that field |
| FixResync.MessageIsFound | lib/proto/fix_message.c:440-482 | a message is found behind any number of fields that are no BeginString |
| FixResync.TextHidesExactly | lib/proto/fix_message.c:131-205 | a message is found behind a piece of text, with no BeginString in it, if and only if the text has an equals sign |
| FixBounds.InsideExactly | lib/proto/fix_message.c:271-309 | reading a message stays inside the 48 fields of the reader if and only if no more than 48 of its fields are kept |
| FixBounds.TemplateInside | lib/proto/fix_template.c:131-153 | the same for what a template sends, which has room for 48 constant and 48 other fields |
| FixBounds.OneFieldTooMany | lib/proto/fix_message.c:271-309 | a message with a body of 255 bytes that leaves the array, and one field less that does not |
| FixSession.Session.Admin | tools/fix/fix_common.c:69-199 | verdict, expected number, replies, outgoing number and pending test request after every message |
| FixSession.Session.DoUnexpected | tools/fix/fix_common.c:31-67 | the reply to a number that is too high or too low, and the expected number put back |
| FixSession.Session.Serve | tools/fix/fix_common.c:69-199 | the numbers delivered and the expected number after any run of messages |
| FixSession.DeliveredInOrder | lib/proto/fix_session.c:197-246 | over every run the delivered numbers strictly increase, past the number last consumed and up to the expected one |
| FixSession.NeverDropsUnlessWrapping | tools/fix/fix_common.c:69-199 | handling a message never lowers the expected number, for all messages, if and only if the counter is not at its largest value |
| FixSession.GapIsHeld | tools/fix/fix_common.c:31-67 | a message counts exactly if it has the next number; otherwise the expected number stays |
| FixSession.ConsumedWithoutGaps | tools/fix/fix_common.c:69-199 | without SequenceReset exactly the numbers after the first are consumed, each once, in order |
| FixAnswers.ResetNamesNextExactly | tools/fix/fix_common.c:127-194 | over two turns: the number that a SequenceReset names is that of the next message that counts if and only if it is above the expected one and a gap fill has its turn |
| FixAnswers.MessageAfterReset | tools/fix/fix_common.c:31-199 | after a reset to n: message n counts, a later one is asked for again from n on, an earlier one ends the session unless marked as a duplicate |
| FixAnswers.ResendIsAsked | tools/fix/fix_common.c:31-67 | a resend is asked for if and only if a message is ahead of its turn |
| FixAnswers.SessionIsEnded | tools/fix/fix_common.c:31-67 | the session ends if and only if a message is behind its turn and not marked as a duplicate |
| FixAnswers.ResetIsRejected | tools/fix/fix_common.c:127-194 | a reset is rejected if and only if it would lower the expected number |
| FixAnswers.TestIsAnswered | tools/fix/fix_common.c:87-99 | a test request in turn, and nothing else, is answered by a heartbeat with its text |
| FixAnswers.ResendIsAnswered | tools/fix/fix_common.c:100-120 | a resend request in turn, and nothing else, is answered by a gap fill over the numbers asked for |
| FixAnswers.AnswersAreNumbered | tools/fix/fix_common.c:69-199 | over every run the answers other than gap fills have consecutive numbers |
| FixAnswers.CountsExactly | tools/fix/fix_common.c:31-199 | which messages count: one that is out of turn or a reset backwards leaves the expected number, a reset forward moves it to the number named |
| FixAnswers.TestIsSettledExactly | tools/fix/fix_common.c:80-88 | a pending test request is settled if and only if a heartbeat in turn begins with its text |

## Left out

- FixSession.DeliveredInOrder: runs in which the counter of 64 bits wraps; `FixSession.NeverDropsUnlessWrapping` says
  that this is the only way to lose the order.
- FixAgree.SerializeIsRead: texts and numbers as the writer's contract has them: no delimiter in a text, types as the
  reader's table has them, bodies within the limit, 64-bit integers, a sequence number of 31 bits (`fix_uatoi` overflows
  an int beyond), no more than 48 fields.
- FixReader.Message.Parse: the caller owes that no message has more than 48 kept fields; the source does not test it.
- FixStream.StreamResumes: streams of well-formed messages; `FixResync` says where reading goes on between others.
- FastRoundTrip.StreamIsDelivered: messages within `Filled`: identifiers of 31 bits, at most 55 presence bits, values in
  range, the first value of a copied or incremented field marked as new, as the encoder's states demand.
- FastChunks.ChunksDoNotMatter: for templates all of whose fields are `Repeatable`, the exact class for which a cut field
  resumes.
- FastResume.ResumesExactly: for fields a template can have (`Sound`), with bits of elements only in a map of their own.
- JoinExact.JoinIsRightExactly: snapshots show the book as it was after some message and increments report the
  exchange's events; a feed that reports something else is not covered. A snapshot after no event has no entries and
  joins nothing.
- RptSeqLaws.EveryRunIsConsecutive: runs without a failure and without RptSeq 0; see Findings.
- FAST: vectors, unicode strings and sequences within sequences are refused by the model's templates, and so is the
  encoding of sequences, as in the source: the peer of `FastSequence` is a reference of the model's own; string deltas are decoded but not encoded, as in the source.
- FAST: one `struct fast_field` serves both directions in the source; here a receiving `Cell` and a sending `OutCell`.
- FAST: bytes behind the terminator of a string array are not described; a string that is being read and lacks bytes is.
- FAST: the strings in the elements of a sequence are copied with their state, as values, when their field is complete.
- FAST: after a garbled message nothing is claimed.
- FIX: floating-point values stay text (`strtod`, `modp_dtoa` and the `sprintf` branch of `i64toa` are not modelled);
  `fix_msg_type_parse` reads up to three bytes past what has arrived, and the model reads zeros there.
- FIX session: logon, heartbeat timers, the clock, and the wait for the answer in `fix_session_logout`.
- Signed overflow in `fix_uatoi`, `fix_atoi64`, `price_align` and numeric deltas: integers are unbounded there or
  limited by the contracts above.
- Books: entries of type 'J' set the mark of an empty book as in the source, but no result speaks of it; `books_mask`,
  subscriptions and the retry of `fast_books_recover` are left out, its steps are operations of `RptSeqLaws`.
- GLib's hash table, tree and list are maps and sequences; allocation does not fail; sockets, files, opening and closing
  of feeds, XML and the market-data tools are inputs or left out.
- The fixed-size decoders (ITCH, OUCH, PITCH, BOE, XDP, TAQ, LSE, SoupBin, MBT), which are a table of sizes and a copy.
