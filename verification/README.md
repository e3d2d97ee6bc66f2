# Verification of the torchat daemon's core in Dafny

This project models four parts of the torchat daemon and proves what they are relied on for:

1. **The hash table** (`UtHash`, `PeerHash`, `HashSort` and the modules they use): the intrusive
   table of `include/uthash.h` as the daemon instantiates it for `struct peer`. An element sits in
   the application-order list and in a bucket chain at once; add, delete, doubling and the in-place
   merge sort relink both. `PeerHash.Valid` is the integrity check that the header calls
   `HASH_FSCK`, together with what it leaves out: the tail is the last element, every element is in
   the bucket of its hash value, no key occurs twice, and the bucket loads are bounded until two
   ineffective doublings in a row inhibit expansion for good. The hash function is arbitrary.
2. **The unread-message store** (`StoreSpec`, `StoreLemmas`, `MessageStore`, `Daemon`): queues of
   messages in the hash table, and the command switch of the event routine. `StoreSpec` is the
   store as a state machine, with the properties of whole runs; `MessageStore` and `Daemon` are the
   code, proved to take exactly the steps of that machine.
3. **Byte streams and frames** (`IoLists`, `Fd`, `TorchatProto`): scatter/gather lists, sending and
   receiving under any chunking by the kernel, the read-ahead buffer, and the messages with a header
   of four decimal digits.
4. **Codecs and lines** (`Base64`, `ReceiveLine`): the two base64 encoders and the decoder (section
   5.2 of RFC 1341, section 4 of RFC 4648), and the line reader that peeks before it consumes.

Code that works in place is modelled in place: classes with the fields of the structs, arrays, and
loops with the branches of the source. Where one macro or function does several things, its parts
are methods of their own (for example `PushInto` and `Grow` of `HASH_ADD_TO_BKT`). Ghost state
(`items`, `chains`, `queues`, `doublings`) says what the links stand for. A set or sequence that a
method takes as a ghost parameter (`u`, `s`, `c`, `m`) names the nodes, the buffers or the memory
that the statement speaks about; it has no influence on what the method does.

The kernel is the class `Socket`. Its answers to the calls that read are a sequence in the socket,
one for each call: a number of bytes, that the call would block, or an error. Its answers to the
calls that write are another, and what each wait for the socket to be ready comes to is a third; a
failed wait stands for a deadline that has passed. Every statement about sending or receiving is one
about all such sequences, and says for which of them the call succeeds: `Fd.Moves` says that the
answers move so many bytes before one of them is a refusal, every wait between two calls coming to
something, and `Fd.MovesExactly` says what this means for the sequences as a whole.

## What the code does and its comments do not say

* `iol_check` clears the mark of the wrong node when it gives up (`include/iol.c:49`). A failure leaves
  the marks as they were exactly when the list is refused before anything is marked: an end is null,
  `last` has a successor, or `first` is marked or a dead end (`IoLists.Check`). Otherwise the nodes it
  walked over, other than the one it stopped at, stay marked. While a node is marked every check of a
  list through it fails (`IoLists.OneMarkIsEnough`), and the check that stops at it, past exactly the
  nodes before it (`IoLists.FirstMark`), clears that mark, unless it is its first node, and leaves
  marks on the nodes before it. `IoLists.DeadEnd` and `IoLists.Lasso` are lists that a first check
  leaves marked; in `IoLists.MarkMoves` a second failure takes the mark of the first one away, so that
  a third check succeeds, and marks another node.
* `fd_recv` treats a list in two ways. Up to 2000 missing bytes neither marks nor empty buffers matter;
  beyond, the nodes after the one at which the read-ahead bytes give out have to be unmarked, and if
  there are such nodes the last of them has to have room: an empty last buffer makes the call fail even
  when every byte has arrived (`Fd.Recv`). `fd_send` with an empty last buffer waits once more after
  the last byte, and fails if that wait does (`Fd.SendLoop`).
* `base64_decode` gives nothing back for the encoding of nothing: the round trip holds exactly for
  the non-empty inputs (`Base64.RoundTrip`).
* `torchatproto_mrecv` starts over at the front of the buffer when a payload arrives in pieces, and
  the earlier pieces are lost. A message that it reports lost nothing exactly when no recv on the way
  brought a piece of the payload (`TorchatProto.LossExactly`); after a piece of j bytes the message
  reported is taken from j bytes too far on (`TorchatProto.PieceShifts`, with an example in
  `TorchatProto.PieceLost`), and the last message of a stream never comes (`TorchatProto.LastMessage`).
* A frame with an empty payload can be sent but is refused by the reader. So the round trip holds
  exactly for payloads that are not empty and fit the reader's buffer, and for the answers that bring
  every header at once and every payload whole, after any waits the deadline allows
  (`TorchatProto.ReadExactly`).

## Model

| member | source | states |
|---|---|---|
| Bits.CeilByShiftAndMask | include/uthash.h:781-788 | the shift and the mask compute n divided by the number of buckets, rounded up |
| Bits.WidenMask | include/uthash.h:811 | doubling the mask keeps the masked value or adds the new bit |
| Bits.MaskIsMod | include/uthash.h:320-323 | masking with a power of two less one is the remainder |
| ChainBound.SpreadMult | include/uthash.h:813-817 | the multipliers that a doubling leaves, times the ideal length, are at most the number of items |
| ChainBound.DoublingMult | include/uthash.h:802-817 | after a doubling the multipliers add up to at most the number of buckets |
| ChainBound.DoublingWithin | include/uthash.h:736-747 | after a doubling with an ideal length of at most 10, every bucket is within its load, strictly where its multiplier is positive |
| ChainBound.LoadBound | include/uthash.h:743-745 | buckets within their loads hold less than 20 items per bucket on average |
| ChainBound.NextIdeal | include/uthash.h:802-804 | so the next doubling computes an ideal length of at most 10 |
| ChainBound.TwoInARowStep | include/uthash.h:830-833 | the counter of ineffective doublings exceeds one exactly when two followed each other |
| ChainBound.OnceForAll | include/uthash.h:1046-1052 | once two ineffective doublings followed each other, no later doubling undoes it |
| ChainBound.ExcessCounts | include/uthash.h:813-814 | the sum of what exceeds the ideal length is the number of chain positions past it |
| UtHash.Landing | include/uthash.h:811 | with twice the buckets an item stays in its bucket i or lands in i plus the old number of buckets |
| UtHash.BktIsMod | include/uthash.h:320-323 | the bucket of a hash value is its remainder by the number of buckets |
| UtHash.IdealLength | include/uthash.h:802-804 | the code's expression is the ceiling over the doubled number of buckets, and positive |
| UtHash.PlacedPush | include/uthash.h:736-742 | a new head of the right chain keeps every element once, in the chain of its hash value |
| UtHash.PlacedDrop | include/uthash.h:750-760 | taking one element out of its chain leaves exactly the others, each in its chain |
| UtHash.LinkAmong | include/uthash.h:739-742 | the relinking puts the element in front of its chain and leaves every other chain linked |
| UtHash.UnlinkAmong | include/uthash.h:752-760 | the relinking takes the element out of its chain and leaves every other chain linked |
| UtHash.DelInBkt | include/uthash.h:750-760 | head, count and links of the bucket describe the chain without the element |
| UtHash.Table.constructor | include/uthash.h:172-189 | 32 empty buckets, a zeroed Bloom filter if there is one, the first element as tail |
| UtHash.Table.CountIn | include/uthash.h:813-817 | counting an item in keeps the number of items past the ideal length, and the multipliers |
| UtHash.Table.MoveOne | include/uthash.h:809-824 | one item becomes the head of the chain of its hash value, and the other chains stay |
| UtHash.Table.Redistribute | include/uthash.h:806-825 | all items end up in the new buckets, none twice, and non-ideal items are the sum of what exceeds the ideal length |
| UtHash.Table.Expand | include/uthash.h:791-837 | a doubling keeps the elements and every link invariant; the ideal length is the quotient of items by buckets, rounded up; the non-ideal items are exactly the chain positions past it; a multiplier is the length of its chain divided by the ideal length if the chain is longer, and else zero; ineffective doublings, with more than half of the items non-ideal, are counted, and the second in a row is the last |
| UtHash.Table.Rebalanced | include/uthash.h:762-790 | one doubling restores the bounds on multipliers, ideal length and every bucket |
| UtHash.Table.AddToBkt | include/uthash.h:736-747 | adding keeps chains, counts and bounds; it doubles exactly when the chain reaches ten times its multiplier plus one and expansion is not inhibited, and otherwise only puts the element in front of its chain and counts it |
| UtHash.Table.TakeOut | include/uthash.h:365-367 | deleting keeps chains, counts and bounds, takes exactly this element out of its chain, and leaves the multipliers |
| UtHash.Table.FindInBkt | include/uthash.h:714-733 | finds an element with the key exactly when one is stored |
| Bloom.Set | include/uthash.h:155-162 | setting a bit sets this bit and changes no other |
| PeerHashes.BloomAdd | include/uthash.h:155-159 | sets the bit of the hash value, taken by the size of the filter, and no other |
| PeerHashes.AppendList | include/uthash.h:225-231 | the element becomes the last of the application-order list, and the tail |
| PeerHashes.StoreOne | include/uthash.h:299-302 | counting, placing and filtering the element keeps the table invariant for one element more, and the history of doublings only grows |
| PeerHashes.Relink | include/uthash.h:354-364 | the neighbours of an element are linked to each other |
| PeerHashes.Unlist | include/uthash.h:349-364 | head, tail and neighbours describe the list without the element |
| PeerHashes.UnstoreOne | include/uthash.h:365-367 | the table invariant holds for the remaining elements |
| PeerHashes.PeerHash.constructor | src/datastruct.c:10 | the empty hash is valid |
| PeerHashes.PeerHash.LoadsBounded | include/uthash.h:1010-1022 | in every valid state: multipliers at most the buckets, ideal length at most 10, and while expansion is on fewer than 20 items per bucket and each count at most 10 times its multiplier plus one, strictly if the multiplier is positive |
| PeerHashes.PeerHash.Find | include/uthash.h:119-136 | returns the element with the key or null, the same with and without a Bloom filter |
| PeerHashes.PeerHash.Add | include/uthash.h:284-305 | an absent key's element joins at the end, the whole invariant is kept, and as long as the table lives its history only grows: expansion once inhibited stays so |
| PeerHashes.PeerHash.Delete | include/uthash.h:337-370 | exactly the element is gone, the order of the others and the whole invariant are kept; the last one takes the table with it |
| PeerHashes.LookupAdd | include/uthash.h:284-305 | after an add the new key finds the new element and every other key what it found before |
| PeerHashes.LookupRemoved | include/uthash.h:337-370 | after a delete the key finds nothing and every other key what it found before |
| PeerHashes.LookupUnique | include/uthash.h:119-136 | an element with the key is the one that is found |
| MergeSort.SortCorrect | include/uthash.h:840-844 | for a total preorder the sort is a permutation, ordered, and keeps equal elements in their order |
| MergeSort.MergeOrdered | include/uthash.h:870-914 | merging two ordered runs gives an ordered run, the left one first among equals |
| MergeSort.PassRuns | include/uthash.h:858-916 | one pass doubles the length of the ordered runs |
| MergeSort.PassesPermute | include/uthash.h:853-926 | the passes lose and repeat nothing |
| HashSort.Emit | include/uthash.h:903-913 | one element is linked both ways behind the list built so far |
| HashSort.MergeRuns | include/uthash.h:869-914 | the merge loop appends exactly the merge of the two runs, correctly linked |
| HashSort.SkipRun | include/uthash.h:860-868 | finds the second run and the length of the first |
| HashSort.SortPass | include/uthash.h:854-919 | one pass over the links produces the pass over the sequence, and reports a single merge exactly when the list is covered |
| HashSort.SortList | include/uthash.h:853-926 | the loop over the passes ends, and head, tail, prev and next describe the sorted sequence |
| HashSort.SortAscends | include/uthash.h:840-844 | what a total preorder gives for sequences holds for the key of the elements: a permutation, ascending, ties in the old order |
| HashSort.Sort | include/uthash.h:844-929 | for any comparison that looks at the key and the fields of an element the sort does not write: the list becomes the sorted one, a permutation of what it was; where the comparison orders the elements, it ascends and equal elements keep their order; the hash stays valid, and no chain or bucket is written |
| StoreSpec.StepConserves | src/main.c:121-157 | what a step hands out for a peer and leaves queued is what was queued and what it adds, in order; a step about another peer changes nothing |
| StoreSpec.StoreQueue | src/actions.c:136-147 | storing a message puts it at the end of its peer's queue and leaves every other queue |
| StoreSpec.TakeQueue | src/datastruct.c:132-156 | taking drops the first message of its peer's queue and leaves every other queue |
| StoreSpec.QueueAt | src/datastruct.c:38-44 | the queue of a peer in the table is the one of its entry |
| StoreSpec.StoreIds | src/actions.c:141-145 | a new peer comes last, and no other moves |
| StoreSpec.TakeIds | src/datastruct.c:149-153 | a peer leaves with its last message, and the others stay in order |
| StoreSpec.StepLocal | src/actions.c:136-178 | what a step does about a peer depends on that peer's queue alone |
| StoreSpec.RunWellFormed | src/datastruct.c:150-153 | in every run no queue in the table is empty and no peer is there twice |
| StoreSpec.Fifo | src/datastruct.c:84-156 | over every run, the messages handed out for a peer followed by its queue are the messages stored for it, in order |
| StoreSpec.Isolation | src/actions.c:136-178 | over every run, a peer's queue and what is handed out for it depend only on the events about it |
| StoreSpec.PresentIffUnread | src/actions.c:144 | over every run, a peer is in the table exactly when something stored for it was not handed out yet |
| StoreSpec.StepOrder | src/datastruct.c:26-36 | a step keeps the order of the peers that stay and puts a new one last |
| StoreSpec.ListedBySince | src/datastruct.c:164-185 | over every run the peers stand in the order in which each one last became non-empty |
| StoreSpec.JoinCommas | src/datastruct.c:173-183 | cutting the last comma off gives the ids joined by commas, one shorter than the computed size |
| StoreSpec.SplitJoin | src/datastruct.c:173-183 | splitting the list at its commas gives the ids of the peers, in order, if there are no commas in them |
| StoreLemmas.StoreExisting | src/datastruct.c:99-102 | a message behind the queue of a known peer is the store step |
| StoreLemmas.JoinNew | src/actions.c:141-145 | a new peer is an entry without a message at the end |
| StoreLemmas.StoreAfterJoin | src/actions.c:141-146 | joining and then storing is the store step |
| StoreLemmas.TakeSome | src/datastruct.c:149 | dropping the first of several messages is the take step |
| StoreLemmas.TakeLast | src/datastruct.c:149-153 | dropping the only message together with its peer is the take step |
| MessageStore.GetTail | src/datastruct.c:74-82 | finds the last message of the list |
| MessageStore.LinkLast | src/datastruct.c:96-102 | the list goes on as before and ends in the message |
| MessageStore.Append | src/datastruct.c:96-102 | the message is the new last one of the peer's list, and no other list changes |
| MessageStore.DropHead | src/datastruct.c:106-118 | the list continues with the second message |
| MessageStore.MessageTable.InsertPeer | src/datastruct.c:13-36 | a new peer with an empty list joins at the end of the table |
| MessageStore.MessageTable.PeerExist | src/datastruct.c:38-54 | says whether the peer is in the table |
| MessageStore.MessageTable.InsertNewMessage | src/datastruct.c:84-104 | the known peer's queue grows by the message at its end |
| MessageStore.MessageTable.DeletePeer | src/datastruct.c:120-130 | the peer and its queue leave the table, the others stay in order |
| MessageStore.MessageTable.TakeOldest | src/datastruct.c:149-153 | the oldest message leaves, and an emptied peer with it: the take step |
| MessageStore.MessageTable.GetUnreadMessage | src/datastruct.c:132-156 | returns null exactly for an empty queue, otherwise a copy of the oldest message while the table takes the take step |
| MessageStore.MessageTable.EnsurePeer | src/actions.c:141-145 | the peer is in the table afterwards, and storing means the same as before |
| MessageStore.MessageTable.StoreMsg | src/actions.c:136-147 | the table takes the store step, for known and unknown peers |
| MessageStore.MessageTable.SumSizes | src/datastruct.c:174-176 | the size is the length of all ids with a comma each |
| MessageStore.MessageTable.Concatenate | src/datastruct.c:177-182 | the ids with a comma each, in the allocated size |
| MessageStore.MessageTable.GetPeerList | src/datastruct.c:164-185 | nothing exactly for an empty table; otherwise the ids of all peers in order, which with one more comma are each followed by a comma, one character shorter than the computed size, and are found again between the commas |
| MessageStore.MessageTable.Clear | src/datastruct.c:187-194 | deleting while iterating empties the table |
| Daemon.ClientUpdate | src/actions.c:149-178 | the oldest message of the peer with its command, text and date, which leaves the queue, and a peer without any more leaves the table; END with nothing changed exactly when there is none |
| Daemon.SendPeerList | src/actions.c:199-216 | the request comes back with the list of all peers in order as its text, empty if there is none |
| Daemon.Server.EventRoutine | src/main.c:106-170 | command by command what happens to every queue and to the list of peers, and what goes back; every request is one step of the state machine, and only EXIT raises the flag |
| Daemon.HandleBatch | src/main.c:199-255 | the requests of one wake-up are steps of the state machine, all of them handled even after an EXIT |
| Daemon.EventLoop | src/main.c:172-311 | the answers of all handled batches are those of the state machine from the empty store, handling stops after the batch with an EXIT, what is given out for a peer is a prefix of what came in for it, every update gets the next of these or END exactly when there is none, and the table is empty at the end |
| Daemon.ResponsesAreReplies | src/main.c:121-157 | the i-th answer is the i-th reply of the state machine on the wire |
| Daemon.FirstCome | src/actions.c:136-178 | over every run, the texts in the answers for a peer are the first texts that came in for it, in order, each once |
| Daemon.NextInTurn | src/actions.c:149-178 | over every run, an update gives the text that came in next for its peer, and END exactly when all that came in was given out before |
| IoLists.NoList | include/iol.c:37-38 | where the check gives up, there is no list that ends in last |
| IoLists.EndingListRepeatsNothing | include/iol.c:36-42 | a list that ends visits no node twice |
| IoLists.OneList | include/iol.c:36-42 | its two ends determine the list |
| IoLists.Mark | include/iol.c:36-42 | the first loop ends on every pointer graph, marks exactly what it walked over, and counts nodes and bytes |
| IoLists.Unmark | include/iol.c:43 | the second loop clears exactly the marks set |
| IoLists.Abandon | include/iol.c:47-51 | the error exit ends, and clears no mark but that of the node it stopped at |
| IoLists.OnTheWay | include/iol.c:36-42 | a list from first to last goes through every node that the walk comes to |
| IoLists.Check | include/iol.c:30-52 | succeeds exactly when there is a list from first to last with no mark on it, then with its exact length and byte total and all marks as before; a failure leaves the marks as they were exactly when it was refused at once, and otherwise exactly the nodes walked over, first among them, stay marked, except the node it stopped at |
| IoLists.OneMarkIsEnough | include/iol.c:37 | with a mark on one of its nodes there is no list for a check to succeed on |
| IoLists.ClearPasses | include/iol.c:36-38 | of a list that is in order a check succeeds exactly when none of its nodes is marked |
| IoLists.NeverThere | include/iol.c:37-38 | nor if last cannot be reached from first |
| IoLists.DeadEnd | include/iol.c:46-51 | two nodes checked with a wrong end: the first stays marked, and the check with the right end fails |
| IoLists.Lasso | include/iol.c:46-51 | a node leading into a loop: it stays marked |
| IoLists.FirstMark | include/iol.c:36-38 | with marks on a list that is in order the check gives up at the first marked node, past exactly the nodes before it |
| IoLists.MarkMoves | include/iol.c:46-51 | the first check, against a wrong end, marks the second node of three; the check of all three fails there, clears that mark and marks the first; the check of the last two then succeeds |
| IoLists.ToIov | include/iol.c:54-61 | fills an array of as many entries as were counted, entry by entry |
| Fd.CutFront | include/fd.c:143-147 | cutting an entry's front leaves the bytes from there on |
| Fd.DataIsText | include/fd.c:106-119 | the bytes behind a list are the stretches of its buffers, one after the other |
| Fd.TotalIsCells | include/iol.c:41 | the byte total that the check reports is the number of these bytes |
| Fd.Advance | include/fd.c:139-152 | after advancing by what was moved, the array covers exactly the bytes after it; it is never indexed past its end, and reaches it only with everything moved and the last entry not empty |
| Fd.MovesExactly | include/fd.c:124-156 | bytes move exactly when some number of calls brings enough of them, none refused, with every wait between two calls successful, and one after the last where the last buffer is empty |
| Fd.UnusedExactly | include/fd.c:124-156 | what such a transfer leaves of answers and waits is what follows the first calls that are enough |
| Fd.Push | include/fd.c:130-152 | one round puts as much of the rest on the wire as the kernel takes, and what is after it remains; it fails exactly when the kernel refuses |
| Fd.SendLoop | include/fd.c:124-156 | at every exit the wire has grown by a front part of the message; success means all of it, and comes exactly when the answers move that many bytes in time |
| Fd.Send | include/fd.c:106-157 | for every schedule of partial writes the wire grows by a prefix of the concatenated list; the call succeeds exactly when there is an unmarked list from first to last and the kernel takes all of it before a refusal or a failed wait; otherwise nothing is sent if there is no such list; on success it uses up no more answers and waits than needed |
| Fd.Pull | include/fd.c:176-198 | one round fills the next bytes of the buffers with the next bytes of the stream and writes nothing else; it fails exactly when the answer is an error or the end of the stream |
| Fd.RecvLoop | include/fd.c:175-202 | at every exit the buffers hold a prefix of the stream in order; success means they are full, and comes exactly when the last one is not empty and the answers bring the missing bytes in time; on success it uses up no more answers and waits than needed |
| Fd.RecvDirect | include/fd.c:160-203 | the same for the whole direct path, and exactly when also no node carries a mark; on success it uses up no more answers and waits than needed |
| Fd.Copy | include/fd.c:220-235 | moves as much of the read-ahead bytes as the buffer takes, in order, and keeps the rest |
| Fd.Drain | include/fd.c:243-255 | copies into one buffer after the other until the read-ahead bytes or the buffers are used up, and then is at the node where the bytes give out |
| Fd.Missing | include/fd.c:257-262 | the missing length is the number of bytes still to be placed |
| Fd.ReadOn | include/fd.c:269-292 | one turn places the next bytes of the stream and keeps the rest as read-ahead; it is done exactly when the answer brings what is missing |
| Fd.RecvThrough | include/fd.c:268-296 | the buffered path: placed, read-ahead and unread bytes are the stream; success fills every buffer, and comes exactly when the answers bring the missing bytes before an error, the end of the stream or a failed wait; on success it uses up no more answers and waits than needed |
| Fd.RecvLarge | include/fd.c:263-266 | the direct path for more than 2000 missing bytes, from the rest of the current buffer on; exactly when it succeeds |
| Fd.Recv | include/fd.c:237-296 | placed bytes, read-ahead bytes and unread bytes concatenate to the stream as before under any chunking; the placed bytes fill the front of the list in order, nothing else is written, and success means every buffer is full; it succeeds exactly when the answers bring what the read-ahead bytes lack before an error, the end of the stream or a failed wait, and, for more than 2000 such bytes, the nodes behind are unmarked and do not end in an empty buffer; on success it uses up no more answers and waits than needed |
| Fd.Reader.Receive | include/fd.c:237-296 | so over any sequence of calls, succeeding or not, everything placed so far, the read-ahead and the unread bytes are the stream; and each call succeeds exactly under the condition of Fd.Recv |
| TorchatProto.HeadFaithful | src/torchatproto.c:311-320 | four digits spell the length exactly up to 9999, and no longer length |
| TorchatProto.FrameSpelled | src/torchatproto.c:311-320 | a frame is the four digits of the length, from thousands to ones, and the payload |
| TorchatProto.GenerateHead | src/torchatproto.c:311-320 | writes the four decimal digits of the length and nothing else |
| TorchatProto.MSendL | src/torchatproto.c:43-56 | sends nothing of more than 8192 bytes, of a marked list or one with a wrong end; otherwise a prefix, and succeeds exactly when the kernel takes all of it in time |
| TorchatProto.MSend | src/torchatproto.c:322-342 | a prefix of header and payload goes out, all of it on success; success comes exactly for a payload of at most 8188 bytes that the kernel takes in time, and a longer one sends nothing |
| TorchatProto.FrameReadsBack | src/torchatproto.c:240-308 | a frame is read back as its payload, with exactly its bytes used up, if and only if the payload is not empty and fits |
| TorchatProto.RecvHead | src/torchatproto.c:240-262 | for any answer, a length comes back exactly for four digits brought at once, and is the number they spell, otherwise -1; what the recv brought is used up |
| TorchatProto.RecvPayload | src/torchatproto.c:285-307 | for any answers, result, buffer, stream and answers left are those of the loop that starts over at the front, as LoopExactly describes them |
| TorchatProto.LoopExactly | src/torchatproto.c:285-307 | whatever stream and answers, and with the bytes from where they come: it ends with the first answer that fills the buffer, fails with the first error before that, or is late when the deadline passes before both |
| TorchatProto.MRecv | src/torchatproto.c:264-308 | for any answers, result, buffer, stream and answers left are determined: a header that announces nothing or too much fails with the buffer as it was, otherwise the loop decides |
| TorchatProto.PayloadShape | src/torchatproto.c:285-307 | a payload received is a stretch of the stream; what is lost lies before it, what is left behind it |
| TorchatProto.LossExactly | src/torchatproto.c:285-307 | whatever stream and answers, a reported message lost nothing if and only if no answer brought a piece of the payload |
| TorchatProto.FrameExactly | src/torchatproto.c:264-308 | the next frame is given back without a loss if and only if its payload is not empty and fits, its header comes at once and its payload whole, after waits within the deadline |
| TorchatProto.LastMessage | src/torchatproto.c:285-307 | with nothing behind it a payload is received if and only if it comes whole within the deadline |
| TorchatProto.PieceShifts | src/torchatproto.c:290 | after a first piece of j bytes, the message reported is taken from j bytes too far on, and j bytes are lost |
| TorchatProto.PieceLost | src/torchatproto.c:290 | an example: of the payload 7 8 the message 8 9 is reported |
| TorchatProto.SendAll | src/torchatproto.c:322-342 | successive sends put a prefix of the concatenated frames on the wire; all of them go out exactly when no payload is too long and the kernel takes one frame after the other in time |
| TorchatProto.RecvAll | src/torchatproto.c:264-308 | for any answers, successive receives give back what successive readings of frames make of the stream |
| TorchatProto.ReadExactly | src/torchatproto.c:240-342 | these are the messages sent, with what follows them left, if and only if none is empty, all fit the buffer, and the answers deliver them |
| TorchatProto.Converse | src/torchatproto.c:264-342 | every message goes out exactly when none is too long and the kernel takes one frame after the other in time, under arbitrary partial writes; and mrecv then gives back the same sequence if and only if none is empty, all fit the buffer, and the answers bring every header at once and every payload whole after any waits the deadline allows |
| Base64.ValSym | include/base64.c:101-104 | the decoding table inverts the alphabet |
| Base64.SymSpelled | include/base64.c:12 | the alphabet, as a text: A to Z, a to z, 0 to 9, plus and slash |
| Base64.ValSpelled | include/base64.c:96-104 | the decoding table gives every letter its place in the alphabet, the padding zero, and holds nothing else |
| Base64.LinesLength | include/base64.c:57-75 | one line feed for every line of at most 72 characters that is begun |
| Base64.GroupsAt | include/base64.c:47-71 | the j-th character stands for the j-th six bits of the input; paddings stand where there are none |
| Base64.EncodeReads | include/base64.c:47-79 | the whole text, by position: character j stands j/72 places further on, and line feeds at the end of every 72 and at the end |
| Base64.JunkIgnored | include/base64.c:106-110 | bytes outside the alphabet change nothing, wherever they are inserted |
| Base64.FilterOne | include/base64.c:106-110 | a character is kept exactly when it is a letter of the alphabet or the padding |
| Base64.UngroupExactly | include/base64.c:120-149 | text of whole blocks does not decode exactly when its first block with a padding has more than two; otherwise every byte is the eight bits at its place |
| Base64.RoundTrip | include/base64.c:26-152 | decoding an encoding gives the input back if and only if it is not empty |
| Base64.RoundTripUnlined | include/proxysocket.c:108-150 | the same for the second encoder, without line feeds |
| Base64.GuardExact | include/base64.c:34-38 | in 64-bit arithmetic the overflow test refuses a length exactly from 2 to the 62 on, where four times it wraps |
| Base64.TextFits | include/base64.c:34-39 | text and terminator fit the computed size, with nothing to spare for one byte of input |
| Base64.EncodeLength | include/base64.c:47-79 | the exact length of the text, line feeds included |
| Base64.EncodeWhole | include/base64.c:47-58 | the loop over whole groups writes the text up to the rest of the input |
| Base64.EncodeEnd | include/base64.c:60-75 | the last one or two bytes, their padding and the last line feed, within the buffer |
| Base64.EncodeBuffer | include/base64.c:26-81 | null exactly when the size would wrap; otherwise every character by position, six bits each from the alphabet, lines of 72 with a line feed each, and a terminator, in a buffer of the computed size |
| Base64.BuildTable | include/base64.c:101-104 | the table that is built is the decoding table |
| Base64.CountChars | include/base64.c:106-110 | counts the characters that the second pass takes up |
| Base64.PutBlock | include/base64.c:129-147 | a full block is written as its bytes, cut by its padding, or found invalid |
| Base64.DecodeInto | include/base64.c:120-149 | the second pass writes the decoded bytes within three bytes for each group |
| Base64.DecodeBuffer | include/base64.c:94-152 | null exactly for a text without a character of the alphabet, with a number of them that is no multiple of four, or with more than two paddings in the first block that has any; otherwise every byte by position up to that block |
| Base64.SameText | include/proxysocket.c:127-147 | the first encoder's text without what the decoder skips is the second's, and only line feeds are skipped |
| Base64.MakeString | include/proxysocket.c:108-150 | every character by position, six bits each from the alphabet, without line feeds, filling its allocation exactly |
| ReceiveLine.FindBreak | include/proxysocket.c:865-866 | finds the first line feed among the peeked bytes |
| ReceiveLine.TakeBreak | include/proxysocket.c:867-875 | consumes through the line feed and cuts off one carriage return, even one from an earlier chunk |
| ReceiveLine.TakeAll | include/proxysocket.c:879-883 | takes what was peeked and makes room for as much again |
| ReceiveLine.ReceiveLine | include/proxysocket.c:850-896 | for any peek sizes the bytes before the first line feed less one trailing carriage return, with exactly the bytes through the line feed consumed; without one, everything up to the end or the failure; always within the buffer |

## Left out

- UtHash.BktOf: hash values are natural numbers of any size, and num_buckets, num_items and the run length of the sort do not wrap at 32 bits.
- UtHash.Table.constructor: allocation never fails.
- MessageStore.DropHead: the `prev` field of a message is not modelled; nothing reads it, and it is not reset when the head leaves.
- MessageStore.MessageTable.InsertPeer: ids are at most 29 characters; a longer one would overrun the field.
- Daemon.Server.EventRoutine: SEND and HOST leave the store alone, and what they send is not modelled; neither are the port number and the JSON text, and `data_wrapper` is a value that is reassigned.
- Daemon.ClientUpdate: the answer is produced, and whether it arrives is not modelled. The source ignores the result of sending it (`src/actions.c:173`), and the message has left the store by then (`src/actions.c:161`), so a send that fails, or an answer of more than 8188 bytes, loses it for good.
- Daemon.FirstCome: speaks of the answers produced, not of those delivered; the same holds for Daemon.NextInTurn and for what Daemon.EventLoop says of the answers.
- Daemon.HandleBatch: coroutines that are suspended in receiving or sending across wake-ups are not modelled; a request is handled within its batch.
- Daemon.EventLoop: epoll, connections, coroutines, failing receives and failing sends are left out; a request is one that was received and parsed, and no store mutation yields.
- HashSort.Sort: a comparison does not follow the message pointer of an element to fields that can change, nor look at its place in the list.
- Fd.Recv: buffers without a base and overlapping buffers are excluded; fd_skip (both list ends null) is not modelled.
- Fd.Send: error numbers are not modelled, only whether a call would block; a sendmsg that takes no byte, which the source asserts never happens, is an error.
- TorchatProto.MRecv: the deadline is the number of times the loop may go around, and that the source aborts when it passes is the result Late.
- Base64.MakeString: only characters of seven bits, since the source shifts a signed char.
- ReceiveLine.ReceiveLine: where a consuming recv does not return the peeked bytes, only memory safety and termination are stated.
- HASH_ADD_*_INORDER, HASH_SELECT and the hash functions themselves are not part of this model; the daemon does not use the first two.
- Freeing memory, logging, argument and configuration parsing, SOCKS and HTTP proxy negotiation, signals and exceptions are not part of this model.
- torproto_create_iolist, put_iol_in_buf and torchatproto_mrecvl are not part of this model: no message passes through them.
