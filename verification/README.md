# Serveez in Dafny

A model of the stateful core of GNU Serveez, a server framework in C, with proofs of what its
data structures and protocol state machines keep.

* **Hash table** (`HashSpec`, `HashSteps`, `HashTable`, `HashRuns`). The bucket table of
  `hash.c` as a class: relocation in place, swap-with-last deletion, doubling and halving. It
  refines a finite map in which two keys are one if their codes are equal and `equals` says so.
* **IRC** (`IrcLines`, `IrcMatch`, `IrcComplete`, `IrcKeys`, `IrcSpec`, `IrcRuns`, `IrcModes`,
  `IrcEffects`, `IrcGraph`, `IrcChannels`, `IrcCrypt`). The splitter of requests,
  case-insensitive comparison and the wildcard matcher, what the comparison is worth in a hash
  table, the client/channel graph with its commands and what they mean for members, flags and
  invitations, and the cipher for private messages.
* **HTTP** (`HttpSpec`, `HttpRuns`, `HttpReplies`, `HttpCache`, `HttpConnection`, `HttpUri`).
  The file cache with its recency list and usage counts, the connections that fill and send
  entries, how responses begin and end, and percent encoding.
* **ICMP** (`IcmpPackets`, `IcmpSocket`). Headers, fragmentation, the framed send queue under
  partial flushing and overflow, the checks of the receiver, and the way of a message from one
  socket to another.
* **Listeners** (`Arrays`, `BindingSpec`, `Bindings`). The growable array and the bindings of
  servers to listening sockets.
* `Octets`, `CStrings`, `Options` and `Sequences` hold what the others share.

The form is the same in every part: a specification as functions on values, lemmas about single
steps and about whole runs of that specification, and classes with the fields of the C
structures whose methods are proved to do what the specification says. `dafny verify
dfyconfig.toml` checks everything.

## Where the code and its intent differ

The model follows the code. Where the code departs from what its comments or its own assertions
ask for, there is a lemma that says exactly when.

* `hash->fill--` (`src/libserveez/hash.c:373`) is outside the test of line 356. `Placement`
  chooses between the two positions; the refinement of the finite map holds for both, because a
  wrong `fill` only moves the resizes. `fill` is an `int` here, a negative value standing for the
  wrapped `size_t`. With the coded position `fill` is exact until the first reduction and never
  again (`Table.Counted`), see also `CodedShrinkExactIff`. The distance of opposite resizes
  (`ShrinkAfterExpand`, `ExpandAfterShrink`) is for the intended position; with the coded one
  there is none (`CodedReductionUndone`).
* The nick and channel tables replace `equals` but not `code`, so that they still tell apart
  names that differ in case (`SameNameIff`). `IrcSpec` identifies a channel by the pair of its
  hash code and its folded name.
* `http_refresh_cache` (`src/http-server/http-cache.c:365-373`) sets the usage count to zero and
  keeps the size. `Refreshing` chooses whether the size is cleared. `StepKeepsInvIff` says that the
  refresh of an entry that is being sent is the only step that breaks the invariant,
  `RefreshConservesIff` what goes wrong then, and `TraceInternalIff` which steps upset the
  consistency predicate. Usage counts and contents are conserved in the runs without such a
  refresh; list, hash and recency order agree in all of them (`TraceKeepsCache`,
  `ListIsRecency`).
* A read error while filling drops the pointer `http_cache_disconnect` needs
  (`src/http-server/http-cache.c:481-486`). The step is modelled as coded: `OrphanIff` says
  that this and nothing else leaves an entry that is never completed or evicted.
* `irc_part_callback` (`src/irc-server/irc-event-2.c:72`) uses the variable of its loop over the
  targets for the loop over the members. `Parts` is what it does then, and `PartLeavesAllIff`
  says when that is what the command asked for.
* The wildcard matcher takes the last occurrence of the character after a star.
  `IrcComplete.CompleteIff` says of every pattern whether it finds all matches, and `MissedText`
  gives a match that is missed for each pattern of the other kind. Empty text is accepted by the
  empty pattern only (`EmptyText`).
* `check_packet` compares the 16 bits of the packet with the unreduced sum of process id and
  socket id (`src/libserveez/icmp-socket.c:365`), see `OwnPacketRejectedIff`.
* `svz_sock_write` leaves the beginning of a frame in the send buffer when it overflows. The
  buffer then is whole frames followed by that part, and the socket is killed, so that it is not
  written any more. On a connected socket whose buffer is shorter than the frame the assertion in
  svz_icmp_write_socket fails instead (`SockWrite`, `AssertionFailsIff`).
* A widening bind shuts down the listeners that fit `port`, not `copy`
  (`src/libserveez/binding.c:423`), and loses their bindings if the new listener cannot be made.

## Model

| member | source | states |
|---|---|---|
| `HashTable.Table.constructor` | src/libserveez/hash.c:184-214 | an empty table whose number of buckets is the largest power of two not above the requested size, but at least four |
| `HashTable.Table.Expand` | src/libserveez/hash.c:285-382 | doubling keeps every (key, value, code) entry, puts each in bucket code mod buckets, and changes `fill` exactly as the number of non-empty buckets changes |
| `HashTable.Table.Widen` | src/libserveez/hash.c:297-308 | the new upper half starts empty and the old buckets stay where they are |
| `HashTable.Table.Relocate` | src/libserveez/hash.c:314-349 | one bucket is relocated in place: no entry is lost or skipped although the index steps back after each removal, and the loop ends |
| `HashTable.Table.Shrink` | src/libserveez/hash.c:351-377 | halving keeps the multiset of entries and their placement, never goes below four buckets, and leaves `fill` off by exactly the decrements that had no non-empty bucket |
| `HashTable.Table.FoldUpper` | src/libserveez/hash.c:353-374 | all entries of the released half arrive in the lower half, once each |
| `HashTable.Table.Fold` | src/libserveez/hash.c:356-373 | one released bucket is emptied into the lower half; `fill` loses one for it wherever the decrement is placed |
| `HashTable.Table.Find` | src/libserveez/hash.c:398-411 | the search by code and `equals` finds the stored key the table cannot tell from the given one, if and only if there is one |
| `HashTable.Table.Put` | src/libserveez/hash.c:390-437 | refines a finite map keyed by equal code and `equals`, through expansions; returns the previous value; the table doubles exactly when an empty bucket is used and the count is above the limit; with the intended decrement it is one step of the resize discipline |
| `HashTable.Table.Delete` | src/libserveez/hash.c:445-486 | refines removal from that map, through reductions, and says exactly when the table is halved; returns the value removed |
| `HashTable.Table.Remove` | src/libserveez/hash.c:460-481 | removing an entry by moving the last one of its bucket into the gap takes exactly that key out of the map |
| `HashTable.Table.Reduce` | src/libserveez/hash.c:470-479 | a table is halved exactly if it is below the limit and has more than four buckets; the first coded reduction leaves `fill` wrapped |
| `HashTable.Table.Wraps` | src/libserveez/hash.c:353-374 | one coded reduction takes `fill` to -2 or less |
| `HashTable.Table.Get` | src/libserveez/hash.c:493-512 | the value of the finite map, or NULL |
| `HashTable.Table.Exists` | src/libserveez/hash.c:522-536 | true exactly for keys in the finite map |
| `HashTable.Table.Size` | src/libserveez/hash.c:571-576 | the number of keys of the finite map |
| `HashTable.Table.Foreach` | src/libserveez/hash.c:544-564 | every stored pair is visited exactly once, although the outer loop stops as soon as it has counted enough of them |
| `HashTable.Table.Contains` | src/libserveez/hash.c:583-599 | the key of the first entry with the value, bucket by bucket, or NULL if no key has it |
| `HashSpec.MaskIsMod` | src/libserveez/hash.c:317 | masking with buckets - 1 is the remainder, for a power of two |
| `HashSteps.MovedKeepsEntries` | src/libserveez/hash.c:319-346 | moving one entry between buckets by append and swap-with-last keeps the multiset of entries |
| `HashSteps.MovedKeepsRelocating` | src/libserveez/hash.c:314-349 | one step of the relocation keeps what is known of the buckets before and after the index |
| `HashSpec.FilledIsOccupied` | src/libserveez/hash.c:38-41 | `fill` is meant to count the buckets that are not empty |
| `HashSpec.CoarseInFine` | src/libserveez/hash.c:285-382 | halving leaves at least half as many buckets in use |
| `HashSpec.FineInCoarse` | src/libserveez/hash.c:285-382 | doubling leaves at least as many buckets in use |
| `HashRuns.RunIsHistory` | src/libserveez/hash.c:390-512 | after any sequence of operations a key has a value if and only if it was put and not deleted since, and the value is that of the last put |
| `HashRuns.SizeCountsLiveKeys` | src/libserveez/hash.c:571-576 | the size is the number of live keys, counted up to equal code and `equals` |
| `HashRuns.Perform` | src/libserveez/hash.c:390-576 | each operation answers what the history of the run says, whatever resizes it triggers |
| `HashRuns.Replay` | src/libserveez/hash.c:390-576 | over a whole run on one table every answer is the one a finite map would give |
| `HashRuns.CodedShrinkMiscounts` | src/libserveez/hash.c:373 | decrementing `fill` for every released bucket, starting from an exact count at the shrink limit, miscounts by at least a quarter of the buckets; decrementing inside the test of line 356 does not miscount |
| `HashRuns.CodedShrinkExactIff` | src/libserveez/hash.c:373 | the coded decrement is exact if and only if no released bucket was empty |
| `HashRuns.CodedShrinkExample` | src/libserveez/hash.c:373 | a concrete table of eight buckets after which `fill` is four too small |
| `HashRuns.ShrinkAfterExpand` | src/libserveez/hash.c:427-435 | between an expansion and the next reduction more than buckets/8 buckets become empty, which takes more than buckets/8 puts and deletes |
| `HashRuns.ExpandAfterShrink` | src/libserveez/hash.c:471-479 | between a reduction and the next expansion more than buckets/4 empty buckets are filled, which takes as many puts and deletes |
| `HashRuns.CodedReductionUndone` | src/libserveez/hash.c:373 | with the coded decrement there is no such distance: after the first reduction the next put into an empty bucket doubles the table again |
| `IrcKeys.CodeBit` | src/libserveez/hash.c:75-87 | what the shift and the exclusive or of one more character do to each bit of the code |
| `IrcKeys.CodeDifference` | src/libserveez/hash.c:75-87 | for names equal up to case, bit j of the codes differs exactly where the characters j - 5 places from the end differ in case |
| `IrcKeys.SameNameIff` | src/irc-server/irc-proto.c:223-227 | two names are the same key of the nick or channel table if and only if they are equal up to case and agree in their last (width - 5) characters: the code is not folded |
| `IrcKeys.ShortNamesKeepCase` | src/irc-server/irc-proto.c:223-227 | so on 64 bits names of up to 59 characters are told apart by case in tables configured to ignore it |
| `IrcMatch.CreateLcset` | src/irc-core/irc-core.c:530-541 | the table holds the lower case of every character, with the three special pairs of the protocol |
| `IrcMatch.LikePairs` | src/irc-core/irc-core.c:530-541 | two characters are like each other exactly if they are equal, the same letter, or one of three pairs of special characters |
| `IrcMatch.StringEqual` | src/irc-core/irc-core.c:548-569 | zero exactly for strings that are equal up to case |
| `IrcMatch.StringRegex` | src/irc-core/irc-core.c:472-524 | the two nested loops decide the recursive matcher, and end because the pattern gets shorter |
| `IrcMatch.CompareLiteral` | src/irc-core/irc-core.c:480-487 | the inner loop compares characters up to the next wildcard |
| `IrcMatch.SkipText` | src/irc-core/irc-core.c:503-516 | after a star matching goes on at the last occurrence of the next pattern character, or at the end of the text |
| `IrcMatch.Sound` | src/irc-core/irc-core.c:472-524 | whatever is accepted matches the declarative glob, question marks directly after a star left out |
| `IrcComplete.CompleteIff` | src/irc-core/irc-core.c:472-524 | for every pattern: the matcher finds all non-empty texts that match if and only if the pattern, read without the question marks after a star, has no star; or one star, not just behind a final question mark, and then a literal whose first character does not recur in it; or two stars around one character that does not occur in the literal behind them |
| `IrcComplete.RegularAccepts` | src/irc-core/irc-core.c:472-524 | one half: a pattern of that kind is complete |
| `IrcComplete.MissedText` | src/irc-core/irc-core.c:472-524 | the other half: for every other pattern a text that matches and is not accepted |
| `IrcComplete.MissedRepeat` | src/irc-core/irc-core.c:510-515 | with two characters or more before a second star, a text in which the first one occurs once more is missed |
| `IrcComplete.MissedCharStar` | src/irc-core/irc-core.c:510-515 | with one character between two stars, a text is missed if that character or a question mark is in the literal behind them or the first character of it recurs |
| `IrcComplete.TwoStars` | src/irc-core/irc-core.c:499-506 | behind a star that is followed by a star the matcher looks for a star in the text, and misses every text without one |
| `IrcComplete.AcceptsAbsorbed` | src/irc-core/irc-core.c:500-502 | the question marks directly after a star make no difference |
| `IrcComplete.NoStar` | src/irc-core/irc-core.c:480-495 | without a star the matcher agrees with the glob, character by character |
| `IrcComplete.Front` | src/irc-core/irc-core.c:477-495 | up to the first star it agrees too, except that after a question mark it gives up at the end of the text |
| `IrcMatch.EmptyText` | src/irc-core/irc-core.c:476-523 | empty text is accepted by the empty pattern only |
| `IrcComplete.MissedMatches` | src/irc-core/irc-core.c:472-524 | four concrete matches the matcher misses |
| `IrcLines.Connection.CheckRequest` | src/irc-core/irc-core.c:191-228 | handles exactly the complete lines in the buffer, in order, until a handler fails, and keeps the bytes after the last one handled |
| `IrcLines.Connection.Scan` | src/irc-core/irc-core.c:202-203 | the position of the next line feed, if there is one |
| `IrcLines.Connection.Line` | src/irc-core/irc-core.c:205-216 | a line without its line feed and without one carriage return before it |
| `IrcLines.Connection.Shift` | src/irc-core/irc-core.c:220-225 | the unhandled rest moves to the front of the buffer |
| `IrcLines.Resume` | src/irc-core/irc-core.c:191-228 | the requests of a stream are those of its first part and then those of its unterminated tail followed by the second part |
| `IrcLines.FirstLine` | src/irc-core/irc-core.c:197-218 | a terminated line at the front of a stream is its first request |
| `IrcLines.TakenApart` | src/irc-core/irc-core.c:191-228 | lines that are sent terminated come out as the same lines with one carriage return removed |
| `IrcLines.LinesComeBack` | src/irc-core/irc-core.c:191-228 | lines ended by a line feed, with or without a carriage return before it, come out as they were |
| `IrcLines.ServeUpTo` | src/irc-core/irc-core.c:191-228 | with any handlers the requests are served in order up to the first handler that fails, the bytes behind it are kept, and its value is returned |
| `IrcLines.ServeAll` | src/irc-core/irc-core.c:191-228 | with handlers that succeed, what is handled is all requests, and what is kept is the tail |
| `IrcLines.Feed` | src/irc-core/irc-core.c:191-228 | chunk independence: however the stream is cut into reads, the requests are those of the whole stream and the buffer holds its unterminated tail |
| `IrcChannels.IrcServer.JoinChannel` | src/irc-server/irc-proto.c:356-438 | the redundant arrays stay consistent and stand for the network with the client added, unless it is in already or in too many channels |
| `IrcChannels.IrcServer.Enter` | src/irc-server/irc-proto.c:369-400 | an existing channel gets the client at the end of both its arrays, without flags |
| `IrcChannels.IrcServer.Link` | src/irc-server/irc-proto.c:382-399 | both sides list each other, nothing else changes |
| `IrcChannels.IrcServer.Open` | src/irc-server/irc-proto.c:404-435 | a missing channel is created with the client as its operator |
| `IrcChannels.IrcServer.LeaveChannel` | src/irc-server/irc-proto.c:444-506 | the client leaves on both sides, nobody else changes, and the channel goes with its last member |
| `IrcChannels.IrcServer.Drop` | src/irc-server/irc-proto.c:450-495 | both arrays of the channel and the array of the client move their last element into the gap |
| `IrcChannels.IrcServer.LeaveAllChannels` | src/irc-server/irc-proto.c:558-599 | the loop ends, because leaving shortens the list of the client, and the client is nowhere afterwards |
| `IrcChannels.IrcServer.DeleteChannel` | src/irc-server/irc-proto.c:744-773 | the channel leaves the hash |
| `IrcChannels.IrcServer.DeleteClient` | src/irc-server/irc-proto.c:919-951 | a client in no channel leaves the nick table |
| `IrcChannels.IrcServer.AddClient` | src/irc-server/irc-proto.c:1060-1067 | a new client is entered if its nick is free |
| `IrcChannels.IrcServer.Part` | src/irc-server/irc-event-2.c:41-84 | PART leaves the channels of its targets one after the other, up to the first that the client is not in; after each it goes on behind as many targets as the channel had members |
| `IrcChannels.IrcServer.PartOne` | src/irc-server/irc-event-2.c:57-81 | one target: the client leaves exactly if it is in the channel |
| `IrcChannels.IrcServer.Kick` | src/irc-server/irc-event-2.c:1381-1440 | KICK handles its targets in turn, each like a KICK of its own |
| `IrcChannels.IrcServer.KickOne` | src/irc-server/irc-event-2.c:1394-1436 | one target: the victim leaves exactly if the issuer is operator of the channel and the victim is in it |
| `IrcChannels.IrcServer.Join` | src/irc-server/irc-event-2.c:185-311 | JOIN handles its targets in order, up to the first that is refused |
| `IrcChannels.IrcServer.Admission` | src/irc-server/irc-event-2.c:212-280 | key, invitation, user limit and ban are checked in this order, and an invitation is used up |
| `IrcChannels.IrcServer.Mode` | src/irc-server/irc-event-2.c:804-1005 | MODE does what its letters say one after the other, with the operator flag the issuer had at the beginning |
| `IrcChannels.IrcServer.Invite` | src/irc-server/irc-event-2.c:1307-1371 | INVITE enters a guest who is not in the channel, for an operator |
| `IrcChannels.Channel.SetClientFlag` | src/irc-server/irc-event-2.c:361-417 | for an operator the flag of the member with that nick changes, and of no other |
| `IrcChannels.Channel.SetArgument` | src/irc-server/irc-event-2.c:617-728 | for an operator the key or the user limit is set or removed; a key is not overwritten |
| `IrcChannels.Channel.ModeStep` | src/irc-server/irc-event-2.c:843-942 | one letter of a mode string: its effect and how far the parameters advance |
| `IrcChannels.Channel.SpendInvitation` | src/irc-server/irc-event-2.c:225-257 | an invitation counts once |
| `IrcGraph.AddMemberConsistent` | src/irc-server/irc-proto.c:369-400 | adding a member keeps the graph consistent: symmetric, without duplicates, flags parallel to members, channels in the hash exactly while they have a member, nobody in too many channels |
| `IrcGraph.FoundChannelConsistent` | src/irc-server/irc-proto.c:404-435 | so does creating a channel |
| `IrcGraph.DropMemberConsistent` | src/irc-server/irc-proto.c:444-506 | so does leaving, including the last member of a channel |
| `IrcGraph.SetRecordConsistent` | src/irc-server/irc-event-2.c:361-417 | so does changing flags, key, limit or invitations |
| `IrcGraph.MembersSwapDelete` | src/irc-server/irc-proto.c:454-463 | the swap in the member array and the flag array takes exactly one member out: everybody else keeps their flags |
| `IrcGraph.JoinedCount` | src/irc-server/irc-proto.c:373 | the length of the channel list of a client is the number of channels it is a member of |
| `IrcRuns.CommandKeepsGood` | src/irc-server/irc-event-2.c:185-1440 | every command keeps channels non-empty and clients within `channels_per_user` |
| `IrcRuns.RunKeepsGood` | src/irc-server/irc-event-2.c:185-1440 | so does every run from the empty server |
| `IrcRuns.QuitLeavesOthers` | src/irc-server/irc-proto.c:558-599 | quitting removes the client everywhere and leaves the flags of all others in all channels |
| `IrcRuns.LeaveThenQuit` | src/irc-server/irc-proto.c:558-599 | leaving a channel first does not change the outcome of quitting |
| `IrcRuns.PartSkipsSecond` | src/irc-server/irc-event-2.c:55-82 | a channel that a PART names as its second target only is not left |
| `IrcRuns.PartLeavesAllIff` | src/irc-server/irc-event-2.c:55-82 | a PART of different channels leaves all of them if and only if there is at most one |
| `IrcRuns.PartOfThree` | src/irc-server/irc-event-2.c:55-82 | of three different channels the third is left as well if and only if nobody else was in the first |
| `IrcRuns.ModeKeepsMembers` | src/irc-server/irc-event-2.c:804-1005 | a mode string changes no membership, and nothing at all for an issuer who is not operator |
| `IrcRuns.ClientFlagIs` | src/irc-server/irc-event-2.c:361-417 | with different nicks the flag goes to the member of that nick |
| `IrcRuns.NewOperator` | src/irc-server/irc-event-2.c:361-417 | a member becomes operator by founding the channel, or by a MODE of one who was operator when the command began, with a letter o under + whose parameter is the nick of the new operator |
| `IrcRuns.ModeAppoints` | src/irc-server/irc-event-2.c:843-942 | for every new operator the mode string has such a letter |
| `IrcRuns.OperatorsAreGranted` | src/irc-server/irc-event-2.c:804-943 | every operator of every run has such a moment in the past and has been operator since |
| `IrcRuns.LeaderlessForever` | src/irc-server/irc-event-2.c:804-943 | a channel without operator at a command boundary has none until it is emptied and destroyed |
| `IrcEffects.JoinAsStranger` | src/irc-server/irc-event-2.c:212-284 | a client comes into an existing channel exactly if the key is right or none is set, it is invited or need not be, there is space, it is not banned and not in too many channels; it has no flags then, nobody else changes, and one invitation is used up exactly if one was needed and the key was right |
| `IrcEffects.JoinAsMember` | src/irc-server/irc-event-2.c:212-284 | a member that joins again stays what it is |
| `IrcEffects.JoinAsFounder` | src/irc-server/irc-proto.c:404-435 | a channel that does not exist is founded by the client as its operator, without settings |
| `IrcEffects.JoinInTurn` | src/irc-server/irc-event-2.c:199-284 | the targets are taken in order up to the first that is refused; being in too many channels is no refusal |
| `IrcEffects.PartIs` | src/irc-server/irc-event-2.c:57-81 | the client is out and nobody and nothing else changes |
| `IrcEffects.KickIs` | src/irc-server/irc-event-2.c:1394-1436 | the victim of an operator is out and nobody and nothing else changes; the KICK of anybody else does nothing |
| `IrcEffects.KicksConcat` | src/irc-server/irc-event-2.c:1389-1437 | the targets of a KICK are handled independently in their order |
| `IrcEffects.KicksOne` | src/irc-server/irc-event-2.c:1394-1436 | a target names a channel and the nick of somebody on the server |
| `IrcEffects.QuitIs` | src/irc-server/irc-proto.c:558-599 | the client is out of all channels and nobody and nothing else changes |
| `IrcEffects.InviteIs` | src/irc-server/irc-event-2.c:1307-1371 | a guest who is present and outside the channel gets one invitation more from an operator, and nothing else changes |
| `IrcEffects.Departs` | src/irc-server/irc-event-2.c:41-1440 | a command that takes a member out of a channel is its own PART or QUIT or a KICK of an operator that names it |
| `IrcEffects.Departure` | src/irc-server/irc-event-2.c:41-1440 | in every run somebody who was in a channel and is not any more left it by such a command |
| `IrcEffects.Enters` | src/irc-server/irc-event-2.c:199-284 | a command that brings somebody into a channel is their own JOIN, with a target that passes all checks if the channel existed |
| `IrcEffects.InvitedBefore` | src/irc-server/irc-event-2.c:224-257 | in every run whoever comes into a channel by invitation only had been invited by one of its operators |
| `IrcModes.SignAndParameter` | src/irc-server/irc-event-2.c:838-942 | the sign over every letter and the parameter that is next there |
| `IrcModes.ModeShape` | src/irc-server/irc-event-2.c:804-942 | a MODE of an operator changes its channel only |
| `IrcModes.ModeSetsFlag` | src/irc-server/irc-event-2.c:891-920 | each of p, s, i, t, n, m is set afterwards exactly if the last of its letters stands under +, or there is none and it was set before |
| `IrcModes.ModeSetsMember` | src/irc-server/irc-event-2.c:879-890 | voice and operator of a member go by the last v or o with its nick; its other flags, the membership and the invitations stay |
| `IrcModes.ModeSetsLocks` | src/irc-server/irc-event-2.c:921-934 | key and limit go by the last k or l that works; the key is the parameter of the last letter that found none set, the limit the number in the last parameter |
| `IrcModes.ModeNeedsOperator` | src/irc-server/irc-event-2.c:822-836 | a MODE of anybody but an operator changes nothing |
| `HttpCache.FileCache.Urgent` | src/http-server/http-cache.c:176-190 | the entry moves to the front of the chained list, the order of the others and all their fields stay |
| `HttpCache.FileCache.Unchain` | src/http-server/http-cache.c:247-255 | the entry leaves the chain and the links around it are closed, at both ends and in the middle |
| `HttpCache.FileCache.Check` | src/http-server/http-cache.c:201-224 | a known file is found under its name and becomes the most recent entry, ready or not |
| `HttpCache.FileCache.FindSlot` | src/http-server/http-cache.c:319-334 | the least recent entry that is ready and not in use, if there is one |
| `HttpCache.FileCache.Init` | src/http-server/http-cache.c:302-358 | a new entry goes to the front; if the cache is full an idle one is evicted for it, or the request is refused |
| `HttpCache.FileCache.Destroy` | src/http-server/http-cache.c:239-261 | the entry leaves list and hash together |
| `HttpCache.CacheEntry.Refresh` | src/http-server/http-cache.c:365-373 | the entry is emptied and its usage count set to zero; its size is left or cleared according to the variant |
| `HttpSpec.LastIdleIsLeastRecent` | src/http-server/http-cache.c:319-334 | the entry evicted is idle and every entry behind it in the list is not, and eviction fails only if no entry is idle |
| `HttpConnection.HttpServer.Get` | src/http-server/http-proto.c:1250-1341 | the cache branch of a response: hit, refresh, fill or bypass, as the status of the entry and the limits say; the server stays valid if and only if no entry in use is refreshed |
| `HttpConnection.HttpServer.Read` | src/http-server/http-cache.c:434-537 | a read while filling appends the same bytes to the send buffer and to the entry, and completes the entry at the announced size or the end of the file; an error drops the back pointer |
| `HttpConnection.HttpServer.Write` | src/http-server/http-proto.c:462-539 | a write of the header or of a filled response, and the change to the cache writer when the header is out |
| `HttpConnection.HttpServer.SendEntry` | src/http-server/http-cache.c:379-427 | a write of cached bytes advances over them and finishes the response at the end |
| `HttpConnection.HttpServer.KeepAlive` | src/http-server/http-core.c:651-669 | a kept connection gives its entry back and is reset for the next request |
| `HttpConnection.HttpServer.Release` | src/http-server/http-proto.c:297-344 | freeing the response lowers the usage count of the entry it was sending |
| `HttpConnection.HttpServer.Disconnect` | src/http-server/http-cache.c:280-295 | a disconnection destroys an entry that was being filled, and otherwise gives it back |
| `HttpRuns.CheckKeepsCache` | src/http-server/http-cache.c:201-224 | a lookup keeps list and index in agreement |
| `HttpRuns.DestroyKeepsCache` | src/http-server/http-cache.c:239-261 | so does destroying an entry |
| `HttpRuns.InitKeepsCache` | src/http-server/http-cache.c:302-358 | so does entering a new one, and the limit of `http_cache_entries` is kept |
| `HttpRuns.StepKeepsInv` | src/http-server/http-cache.c:201-537 | every step of every connection keeps the invariant of cache and connections, refreshes of entries in use apart |
| `HttpRuns.StepKeepsInvIff` | src/http-server/http-proto.c:1265-1281 | of all steps the program can make, exactly the refresh of an entry in use breaks the invariant |
| `HttpRuns.RunKeepsInv` | src/http-server/http-cache.c:201-537 | so every interleaving of connections without such a refresh keeps it |
| `HttpRuns.RunKeepsInvIff` | src/http-server/http-proto.c:1265-1281 | a run of possible steps keeps the invariant all along if and only if it has no such refresh |
| `HttpRuns.UsageIsConserved` | src/http-server/http-proto.c:296-344 | at any moment of any such run the usage of an entry is the number of connections that are sending it |
| `HttpRuns.SendersKeepTheirEntry` | src/http-server/http-cache.c:319-338 | whatever the other connections do, an entry that is being sent stays in the cache with its contents |
| `HttpRuns.SentWhole` | src/http-server/http-cache.c:379-427 | when nothing is left to send, the bytes sent are those of the entry, however they were cut up |
| `HttpRuns.ReadConserves` | src/http-server/http-cache.c:434-537 | while filling, what is missing and what is cached add up to the announced size, and the cached bytes are those appended to the send buffer |
| `HttpRuns.StepKeepsRecency` | src/http-server/http-cache.c:175-358 | every step moves at most the entry it touches to the front of the list |
| `HttpRuns.StepKeepsCache` | src/http-server/http-cache.c:175-358 | every step the program can make keeps list and hash in agreement, without regard to usage counts |
| `HttpRuns.TraceKeepsCache` | src/http-server/http-cache.c:175-358 | at any moment, whatever happened before, list and hash are in agreement and within the limit |
| `HttpRuns.ListIsRecency` | src/http-server/http-cache.c:175-358 | at any moment, whatever happened before, the chained list is the live entries, the one touched last first |
| `HttpRuns.InternalIff` | src/http-server/http-cache.c:105-123 | the consistency predicate survives a step if and only if the step is neither a refresh that keeps a size nor a file that turns out to be empty |
| `HttpRuns.TraceInternalIff` | src/http-server/http-cache.c:105-123 | the predicate holds all along a trace of possible steps if and only if none of these two is among them |
| `HttpRuns.RefreshConservesIff` | src/http-server/http-cache.c:365-373 | setting the usage count to zero is right, and the bytes freed are not those of a sender, if and only if nobody was sending the entry; a sender loses its entry unless that was empty |
| `HttpRuns.RefreshInUseExample` | src/http-server/http-proto.c:1265-1281 | a concrete state in which the refresh is wrong: one connection sends a file that has changed for the next |
| `HttpRuns.InUseIsReached` | src/http-server/http-proto.c:1265-1281 | seven steps from the empty server lead to that state |
| `HttpRuns.OrphanIff` | src/http-server/http-cache.c:455-486 | an entry that nobody fills any more comes about exactly by a read error of its filler after something had been cached, and stays one under every step |
| `HttpRuns.OrphanStays` | src/http-server/http-cache.c:319-338 | such an entry is never completed, refreshed, evicted or destroyed |
| `HttpReplies.GetFresh` | src/http-server/http-proto.c:1282-1294 | a complete entry of the size of the file and not older is sent, and counted |
| `HttpReplies.GetOutdated` | src/http-server/http-proto.c:1265-1281 | a complete entry that is older or of another size is emptied, dated and filled again |
| `HttpReplies.GetNew` | src/http-server/http-proto.c:1303-1314 | an unknown file below the size limit gets an entry of its date if there is a slot |
| `HttpReplies.GetInstead` | src/http-server/http-proto.c:1303-1314 | in a full cache that entry replaces the least recent one that is complete and not being sent |
| `HttpReplies.GetUncached` | src/http-server/http-proto.c:1315-1341 | any other file is sent past the cache |
| `HttpReplies.DateOfFilling` | src/http-server/http-proto.c:1265-1314 | at any moment every entry carries the date of a request of its name that had it filled |
| `HttpReplies.AnswersAreFresh` | src/http-server/http-proto.c:1265-1294 | in every run a file that is answered from the cache has the size of the cached bytes and is not newer than it was for the request that cached it |
| `HttpReplies.EntryOut` | src/http-server/http-cache.c:411-426 | with the last byte of an entry a connection is kept, reset and gives the entry back exactly if it is to be kept, and is closed otherwise |
| `HttpReplies.EntryGoesOn` | src/http-server/http-cache.c:392-426 | before that it stays with the entry, one piece further, and is closed exactly if sending fails |
| `HttpReplies.ReplyOut` | src/http-server/http-proto.c:500-506 | with the last byte of a finished response a connection is kept and reset exactly if it is to be kept, and is closed otherwise |
| `HttpReplies.ReplyGoesOn` | src/http-server/http-proto.c:462-539 | any other write takes its bytes from the send buffer and changes to the cache writer exactly if that is empty and an entry is to be sent |
| `HttpReplies.ReadDecides` | src/http-server/http-cache.c:455-537 | an error or an early end of the file closes the connection; at the announced size the response is done |
| `HttpReplies.DisconnectIs` | src/http-server/http-cache.c:280-295 | a lost connection takes the entry it was filling with it, gives back the one it was sending, and changes nothing else |
| `HttpReplies.KeptForLastRequest` | src/http-server/http-proto.c:1250-1341 | during a response a connection is to be kept exactly if its last request asked for it |
| `IcmpPackets.Unpacked` | src/libserveez/icmp-socket.c:279-326 | a packed header unpacks to itself, whatever follows it |
| `IcmpPackets.Repacked` | src/libserveez/icmp-socket.c:279-326 | every ten bytes are the wire form of exactly one header |
| `IcmpPackets.HeaderLayout` | src/libserveez/icmp-socket.c:279-326 | the fields stand in the order type, code, checksum, identifier, sequence number, port; all words but the port have their high byte first |
| `IcmpPackets.FrameLayout` | src/libserveez/icmp-socket.c:666-689 | length, address and port stand in front of the packet, at bytes 0, 4 and 8 |
| `IcmpPackets.CheckedIs` | src/libserveez/icmp-socket.c:337-422 | on any packet: a wrong type or checksum, the own identifier or another port reject it, code 3 disconnects, and everything behind the header is delivered otherwise |
| `IcmpPackets.Frame` | src/libserveez/icmp-socket.c:666-689 | a frame begins with its own length, fits the static buffer and carries the packet behind its prefix |
| `IcmpPackets.FirstFrame` | src/libserveez/icmp-socket.c:552-560 | the length read at the front of the send buffer is that of the first frame, which is whole |
| `IcmpPackets.FramesAreDetermined` | src/libserveez/icmp-socket.c:537-605 | a send buffer of whole frames can be read in one way only |
| `IcmpPackets.ChunksAreTheMessage` | src/libserveez/icmp-socket.c:660-699 | the payloads of a message join up to it, each of 1 to 65536 bytes and all but the last full |
| `IcmpPackets.FrameAt` | src/libserveez/icmp-socket.c:660-699 | the frames are numbered in order, modulo 65536 |
| `IcmpPackets.AcceptedIff` | src/libserveez/icmp-socket.c:337-422 | a packet gets through to exactly the peers of its type and port (any port for a listener) that do not have its identifier; then it delivers its payload, or closes the connection |
| `IcmpPackets.OwnPacketRejectedIff` | src/libserveez/icmp-socket.c:364-371 | a socket recognizes its own packets if and only if process id plus socket id fit 16 bits |
| `IcmpPackets.EndToEnd` | src/libserveez/icmp-socket.c:337-422 | of the first n frames of a message an accepting peer rebuilds exactly that part of it, of all frames the message, and any other peer nothing |
| `IcmpSocket.Socket.WriteSocket` | src/libserveez/icmp-socket.c:537-605 | a write takes exactly the first frame from the buffer or nothing, no frame is lost between buffer and network, and the assertion fails if and only if the buffer holds only part of a frame |
| `IcmpSocket.Socket.SockWrite` | src/libserveez/socket.c:610-680 | a frame is queued whole behind the others, or the socket fails with part of it in the buffer; without flushing it succeeds if and only if there is space; on a connected socket with a network that takes everything the assertion fails if and only if the frame does not fit the buffer |
| `IcmpSocket.Socket.PartOfFrame` | src/libserveez/socket.c:621-641 | while a frame is being queued, there is no whole frame in the buffer only if a part of the new one fills it |
| `IcmpSocket.Socket.AssertionFailsIff` | src/libserveez/icmp-socket.c:560 | the assertion of svz_icmp_write_socket fails there if and only if there is no whole frame in the buffer, and then the frame does not fit the buffer |
| `IcmpSocket.Socket.Write` | src/libserveez/icmp-socket.c:649-702 | all frames of the message join the traffic in order, or the first few and the socket is killed, or the program ends at the assertion because a frame does not fit the buffer |
| `IcmpSocket.Socket.WriteChunk` | src/libserveez/icmp-socket.c:662-698 | one pass of the loop: one data frame, one sequence number |
| `IcmpSocket.Socket.SendControl` | src/libserveez/icmp-socket.c:613-641 | a control frame without payload joins the traffic, or the socket is killed, or the assertion fails |
| `IcmpSocket.Socket.ReadSocket` | src/libserveez/icmp-socket.c:429-513 | an accepted payload goes to the end of the receive buffer, a rejected packet changes nothing, overflow and disconnection are errors |
| `IcmpSocket.Drain` | src/libserveez/icmp-socket.c:537-605 | a network that takes everything gets the frames of the send buffer in order |
| `IcmpSocket.Send` | src/libserveez/icmp-socket.c:649-702 | what goes out of a message is all of its frames, or the first ones if writing it fails |
| `IcmpSocket.Arrive` | src/libserveez/icmp-socket.c:429-513 | packets that arrive one after the other add to the stream of the socket what the specification delivers of them |
| `IcmpSocket.Transfer` | src/libserveez/icmp-socket.c:429-702 | a message written on one socket is added whole to the stream of another one that accepts its packets, and nothing is added otherwise |
| `HttpUri.CreateUri` | src/http-server/http-dirlist.c:94-119 | the buffer holds the encoding of the whole name |
| `HttpUri.ProcessUri` | src/http-server/http-core.c:897-924 | decoding in place gives what one pass from left to right gives, up to the first terminator |
| `HttpUri.CopyRest` | src/http-server/http-core.c:912-919 | the rest of the string moves two places to the front |
| `HttpUri.HexDigits` | src/http-server/http-core.c:886-889 | the two digits of a byte give the byte back |
| `HttpUri.EncodeConcat` | src/http-server/http-dirlist.c:94-119 | every character is encoded for itself |
| `HttpUri.EncodeOne` | src/http-server/http-dirlist.c:99-114 | letters, digits, space, slash, dot and underscore stay, any other character is a percent sign and its two hexadecimal digits in upper case |
| `HttpUri.DecodeOne` | src/http-server/http-core.c:897-924 | a percent sign and two digits in either case are the byte with that number |
| `HttpUri.DecodePlain` | src/http-server/http-core.c:897-924 | other characters stay as they are |
| `HttpUri.DecodeEncoded` | src/http-server/http-core.c:897-924 | an encoded name decodes to itself whatever follows; nothing decoded is decoded again |
| `HttpUri.EncodeHasNoNul` | src/http-server/http-dirlist.c:94-119 | an encoding is between one and three times as long as the name and contains no terminator |
| `HttpUri.RoundTrip` | src/http-server/http-dirlist.c:94-119 | a name encoded for a listing and sent back in a request is the same name |
| `IrcCrypt.EncryptText` | src/irc-server/irc-crypt.c:56-81 | the text is replaced by its encryption |
| `IrcCrypt.DecryptText` | src/irc-server/irc-crypt.c:87-110 | the static buffer holds the decryption, up to the first terminator in it |
| `IrcCrypt.RoundTrip` | src/irc-server/irc-crypt.c:56-110 | for every key, decrypting the encryption gives the text |
| `IrcCrypt.EncryptConcat` | src/irc-server/irc-crypt.c:66-79 | every character is encrypted for itself |
| `IrcCrypt.EncryptOne` | src/irc-server/irc-crypt.c:68-77 | a character is combined with the key by exclusive or; a result below 0x20 or equal to 35 is written as 35 and the result plus 35 |
| `IrcCrypt.DecryptConcat` | src/irc-server/irc-crypt.c:96-107 | complete cipher texts are decrypted one after the other |
| `IrcCrypt.DecryptPrefixed` | src/irc-server/irc-crypt.c:98-102 | behind a prefix 35 is subtracted before the key is applied |
| `IrcCrypt.DecryptPlain` | src/irc-server/irc-crypt.c:103-106 | any other character is combined with the key |
| `IrcCrypt.EncryptedIsPrintable` | src/irc-server/irc-crypt.c:66-79 | no character below 0x20 is sent, and the length is that of the text plus one for every code with a prefix |
| `IrcCrypt.CanonicalIff` | src/irc-server/irc-crypt.c:87-110 | encrypting a decryption gives the cipher text back if and only if exactly the codes that need a prefix have one |
| `Arrays.CopiesPerAdd` | src/libserveez/array.c:130-165 | additions and deletions in any order copy fewer than three elements per addition |
| `Arrays.RunIsAmortised` | src/libserveez/array.c:130-165 | at any time the copies are at most twice the capacity gained, and the capacity less than 3/2 of the additions |
| `Arrays.Array.Add` | src/libserveez/array.c:130-145 | the value is appended, and growth costs what the specification of a change says |
| `Arrays.Array.Del` | src/libserveez/array.c:153-165 | the element is removed and those behind it move up, or nothing happens past the end |
| `BindingSpec.Ports.JoinContains` | src/libserveez/binding.c:365-376 | joining two binding arrays keeps what both contain, each once up to equal ports |
| `BindingSpec.Ports.WidenedServesAll` | src/libserveez/binding.c:419-447 | a listener for all addresses serves every binding of the listeners it replaces and the new one, each exactly once; the other listeners stay as they are |
| `BindingSpec.Ports.BoundAfter` | src/libserveez/binding.c:404-453 | what is bound after a bind, in every case: bindings are lost exactly when the listener that was to replace others cannot be made |
| `BindingSpec.Ports.BindCases` | src/libserveez/binding.c:404-453 | without a fitting listener a new one is made; otherwise the first that fits takes the binding unless it is there already, except that a listener for all addresses takes the place of those for one |
| `BindingSpec.CopiesWithout` | src/libserveez/binding.c:331-345 | removing a server keeps all bindings of the others |
| `BindingSpec.RunKeepsSingular` | src/libserveez/binding.c:241-265 | in every run no listener serves a server twice on equal ports |
| `BindingSpec.StaysBound` | src/libserveez/binding.c:394-458 | however often listeners are widened, a binding stays until its server is removed or a replacement fails |
| `Bindings.Listener.FindBinding` | src/libserveez/binding.c:222-233 | true exactly if the server is bound on an equal port |
| `Bindings.Listener.AddServer` | src/libserveez/binding.c:241-265 | a binding is appended unless an equal one is there, which is an error |
| `Bindings.Listener.ZonkServer` | src/libserveez/binding.c:331-345 | the bindings of the server are deleted while iterating, the others stay in their order |
| `Bindings.Listener.Adjoin` | src/libserveez/binding.c:355-384 | the bindings of the listener are joined to the array and leave the listener |
| `Bindings.Binder.Collect` | src/libserveez/binding.c:423-435 | all listeners that fit are shut down and their bindings joined in one array |
| `Bindings.Binder.BindOne` | src/libserveez/binding.c:401-453 | binding one expanded configuration: a new listener, an additional binding, or a wider listener in the place of others |
| `Bindings.Binder.ServerBind` | src/libserveez/binding.c:394-458 | binding a configuration is binding each of its expansions in turn, whatever listeners this opens, widens or fails to open |

## Left out

- HashTable.Table: `table` is a sequence that the methods reassign, not an array of pointers; reallocation and memory exhaustion are not part of this model. The size given to the constructor has to be at least one, without which the sizing loop of the code does not end.
- HashTable.Table.Foreach: the callback is the list of visited pairs; a callback that changes the table is not modelled. svz_hash_keys and svz_hash_values, which go the same way, are left out.
- IrcMatch: characters above 127, which index `irc_lcset` with a sign-extended value, are not modelled.
- IrcMatch.Sound: soundness is for the pattern without the question marks directly after a star, which the code skips on purpose; so is IrcComplete.CompleteIff.
- IrcLines.Connection.Line: the test for a carriage return looks at the current line only; in the code it can look at the byte before an empty line at the front of the buffer. Handlers are a function of the requests so far.
- IrcLines.Feed: requires that each read finds space behind the unterminated tail; flood protection is not part of this model.
- IrcChannels.IrcServer.Join: the ban list is an input of each target; adding and removing bans, which has no stable law in the code, is not modelled. Invitations of deleted clients are not modelled either.
- IrcChannels.IrcServer.Mode: for channels; user modes, the counters of invisible clients and operators, and replies are left out. The limit argument is read by an abstract `atoi`. Nicks do not change during a run.
- irc_get_target, reply texts, history, WHO, NAMES, LIST and server links: output or parsing without state.
- HttpConnection.HttpServer.Get: starts where the file has been opened; headers, ranges, directories and CGI are left out, and a connection has one request at a time. Sending an uncached file is a state of the connection without further steps.
- HttpRuns.RunKeepsInv: runs in which an entry in use is refreshed are left out, as those that RunKeepsInvIff shows to break the invariant. The same goes for UsageIsConserved, SendersKeepTheirEntry and SentWhole.
- http_free_cache while connections are sending, and idle timeouts: they would add steps that break the conservation of usage counts by design.
- IcmpPackets.CheckPacket: the IP header is removed beforehand; its checks and the checksum are abstract functions. Packets shorter than both headers are not modelled. Words the code copies as they are stand in memory with the least significant byte first.
- IcmpSocket.Socket.ReadSocket: recording the address of the sender and access lists are left out.
- IcmpSocket.Transfer: the network keeps the order of the packets and loses none; it stands for the event loop between the two sockets.
- IcmpSocket.Socket.Write: the frame is put together as a value, not in the static buffer, which it is proved to fit. A connected socket has a send buffer of at least four bytes.
- HttpUri.CreateUri: the file name is a value, the buffer is an array; the code has a fixed buffer, which the encoding is required to fit.
- IrcCrypt.DecryptText: requires that no prefix stands at the end of the cipher text, after which the code reads past the terminator, and that the text fits its buffer.
- Arrays.Array: sizes are unbounded; a growth that overflows `size_t` is not modelled.
- BindingSpec.Ports: port configurations are compared by an abstract relation whose EQUAL case is required to be an equivalence.
- Bindings.Binder.ServerBind: the expansion itself (`svz_portcfg_expand`) and whether a listener can be made are inputs.
- Bindings.Binder.BindOne: the two loops that list and adjoin the fitting listeners are one loop here. Accept filters (`filter_net`, `filter_pipe`) are simple searches and left out.
- Coservers, Guile bindings, option parsing, dynamic loading, logging and all system calls: their results are inputs or choices of the methods.
