# Verification of the Networks coursework

This project models the hard parts of the repository and proves what they are for:

- the **gossip sync** of the Lab 7 peer-to-peer node, from the pointers of its lists and the bytes of its
  frames up to a whole network of nodes,
- the **file transfer** between two nodes, word by word,
- the **client/server stack** of Lab 1 with its lock-step pipe protocol,
- the **hand-off of connections to threads**, private in Lab 5 and through a shared cell in Lab 7.

The modules build on each other:

| file | content |
|---|---|
| `Options.dfy`, `Sequences.dfy`, `Arithmetic.dfy` | shared vocabulary: optional values, what list calls do to a sequence, powers and quotients |
| `LinkedLists.dfy` | the doubly linked list, its pointers rewritten in place |
| `CStrings.dfy` | C strings, `strtok` as a stateful call that writes into its buffer, `strtoul` with base 0, `sprintf`, `strcat` |
| `Wire.dfy` | the two frames of a sync reply: printed with running offsets, parsed with `strtok` |
| `Pools.dfy` | node pool and file pool under runs of announcements |
| `SyncerPass.dfy` | the cursor of one syncer pass, and passes over dead peers |
| `Peer.dfy` | a running node: both pools, reading replies, one syncer pass, answering a sync |
| `GossipClosure.dfy`, `Gossip.dfy` | who knows whom, on sets of addresses; and nodes gossiping through the wire, refined to those sets |
| `CursorGossip.dfy` | gossip with the cursors of the syncers: whom each node asks is decided by its pool |
| `ConcurrentReader.dfy` | a sync handler reading the pool while the syncer inserts and removes |
| `FileTransfer.dfy` | count pass, send pass, download, print |
| `IntStack.dfy`, `StackServer.dfy`, `LockStep.dfy` | linked stack with counted heap cells, the server's command loop, client and server interleaved |
| `PrivateHandoff.dfy`, `SharedHandoff.dfy` | the two ways of handing a connection to a thread |

`dafny verify dfyconfig.toml` checks everything.

## Choices where the source leaves one

- The two ports of the node differ. The list follows the Windows port (its `deleteVal` handles a list of one and
  rejects an empty list), and so does the bootstrap record; message parsing, loop bounds and the reaction to a
  failed sync follow the Linux port.
- `Lab 7/node.c:194` writes the terminator of the copied file list one byte late, behind a byte that was never
  written. The model writes it at the end of the copied bytes. `Wire.LateTerminator` says exactly when the code as
  it stands still recovers the names: when that stale byte happens to be a terminator or one more comma.
- The Linux node never sets its name. The round trips hold exactly for non-empty names;
  `Wire.UnsetNameLosesTheListing` shows what an empty one does to the message.
- A removal between two reads of a sync handler can send it past the end of the list, so "every read is in range" is
  false of the code. `ConcurrentReader.CrashesExactlyWhen` says of every run whether it happens, from the order of
  the inserts, removals and reads alone.
- A downloaded file is never closed, so what the node prints right after the download is what its stream has written
  out by then: of a short file, nothing. `FileTransfer.PrintedInFull` and `FileTransfer.PrintsLikeTheOriginal` give
  the exact conditions.
- File requests share one record, so a client can be sent the file another one asked for
  (`SharedHandoff.NameCanBeAnothers`); `SharedHandoff.ServesOwnExactlyWhen` says exactly when it cannot.
- Lab 5 ignores the result of `recvfrom`. A failed receive creates a job that replies to the sender before.
- "Words survive" and "a copy prints like its original" are false for files that hold terminator bytes.
  `FileTransfer.WordsSurvive` and `FileTransfer.CopyIsStable` give the exact conditions.
- A pass over the pool has no end of its own while peers answer (`SyncerPass.LivePeersKeepThePassGoing`), so the pass
  takes the outcomes of its syncs as a finite trace.
- The dead-peer result needs no assumption for the number and the multiset of survivors; only their order needs a pool
  without duplicates (`SyncerPass.DeadPassThins`).
- Whom a node asks is decided by a cursor over a pool that changes under it, and a peer with nothing new to tell is
  asked again and again (`SyncerPass.NothingNewKeepsTheVisit`), so a pool with several starting entries may never get
  to the others. With the one address the bootstrap asks for this does no harm: `CursorGossip` proves that every fair
  schedule completes the closure.
- In every transition system an event that cannot happen in a state leaves the state as it is, so each result covers
  all sequences of events.

## Model

| member | source | states |
|---|---|---|
| LinkedLists.LinkedList.Forward | Lab 7 Windows/PeerToPeer/linkedlist.c:39-47 | following k links from the head reaches the k-th node of the chain, and null after the last |
| LinkedLists.LinkedList.Backward | Lab 7 Windows/PeerToPeer/linkedlist.c:49-65 | following k links back from the tail reaches the k-th node from the end, and null after the first |
| LinkedLists.LinkedList.LinksMirror | Lab 7 Windows/PeerToPeer/linkedlist.c:30-128 | both directions spell the same duplicate-free chain of `size` nodes holding the contents in order |
| LinkedLists.LinkedList.JumpToNode | Lab 7 Windows/PeerToPeer/linkedlist.c:39-47 | the walk terminates at exactly the ix-th node |
| LinkedLists.LinkedList.InsertVal | Lab 7 Windows/PeerToPeer/linkedlist.c:67-96 | acts as a sequence splice (any index into an empty list gives a singleton), keeps all links sound, and a rejected call returns 1 and changes nothing |
| LinkedLists.LinkedList.DeleteVal | Lab 7 Windows/PeerToPeer/linkedlist.c:98-128 | acts as removal of the ix-th element, keeps all links sound, and a rejected call returns 1 and changes nothing |
| LinkedLists.LinkedList.GetVal | Lab 7 Windows/PeerToPeer/linkedlist.c:130-136 | the ix-th value of a non-empty list, or none beyond its end |
| LinkedLists.LinkedList.FindVal | Lab 7 Windows/PeerToPeer/linkedlist.c:138-148 | the least position of an equal record, or -1 |
| LinkedLists.LinkedList.Replay | Lab 7 Windows/PeerToPeer/linkedlist.c:67-128 | every run of inserts and deletes refines the same run on a sequence |
| Sequences.FirstIndexFinds | Lab 7 Windows/PeerToPeer/linkedlist.c:138-148 | the search result is non-negative exactly when the record is there, and no earlier position holds it |
| Sequences.RemoveFirstIsRemoveAt | Lab 7/node.c:212-219 | the copy removed is the one found first |
| Sequences.InsertPlaces | Lab 7 Windows/PeerToPeer/linkedlist.c:67-96 | an insert puts the value at the index and moves what was there back, entry by entry |
| Sequences.RemovePlaces | Lab 7 Windows/PeerToPeer/linkedlist.c:98-128 | a removal takes out the entry at the index and moves what is behind it up, entry by entry |
| Sequences.RemoveFirstTakesOneCopy | Lab 7/node.c:212-219 | removal takes exactly one copy of the record out of the pool, or changes nothing |
| CStrings.Tokenizer.Start | Lab 7/node.c:174-175 | `strtok(s, d)` drops the earlier string, yields the first token, and overwrites at most the delimiter behind it |
| CStrings.Tokenizer.Next | Lab 7/node.c:179-186 | each further call yields the next token of the original text, and null when none is left |
| CStrings.TokensAreClean | Lab 7/node.c:173-210 | a token is never empty, never holds the delimiter, and is made of the text's characters |
| CStrings.TokensSplit | Lab 7/node.c:173-210 | any text splits at any delimiter, however many stand together or at its ends |
| CStrings.TokensOfJoin | Lab 7/node.c:196-208 | splitting undoes joining exactly for words that are non-empty and free of the delimiter |
| CStrings.DecimalIsReadAsDecimal | Lab 7/node.c:231 | base 0 reads every decimal numeral at its value, saturating at the widest unsigned long |
| CStrings.DecimalInPrint | Lab 7/node.c:20-22 | the digits `%d` prints, last one by last one |
| CStrings.HexDigits | Lab 7/node.c:231 | both cases of a hexadecimal digit are read at their value |
| CStrings.LeadingZeroIsOctal | Lab 7/node.c:231 | a zero-padded number is read as octal |
| CStrings.HexPrefixIsHexadecimal | Lab 7/node.c:231 | a number after 0x is read as hexadecimal |
| CStrings.BlanksAreSkipped | Lab 7/node.c:231 | each of the six white-space characters in front of a number is skipped |
| CStrings.SignsAreRead | Lab 7/node.c:231 | a sign is read; a negative number wraps around the unsigned long |
| CStrings.RestIsIgnored | Lab 7/node.c:231 | reading stops at the first character that is no digit |
| CStrings.ZeroStandsAlone | Lab 7/node.c:231 | a zero with no octal digit and no hexadecimal prefix behind it is zero |
| CStrings.NoNumber | Lab 7/node.c:231 | a text that is no number is read as zero |
| CStrings.PortWraps | Lab 7/node.c:231 | a port number of any size is cut to 16 bits |
| CStrings.PortRoundTrip | Lab 7/node.c:182-185 | every 16-bit port survives printing in decimal and reading in base 0 |
| CStrings.Sprintf | Lab 7/node.c:30-37 | writing at an offset stores the text and its terminator and leaves every other byte |
| Wire.PeerRoundTrip | Lab 7/node.c:221-236 | a peer record survives the wire if and only if its name and address are non-empty and colon-free |
| Wire.PeerInPrint | Lab 7/node.c:20-22 | what a printed record looks like |
| Wire.MessageInPrint | Lab 7/node.c:132-143 | what a printed message looks like |
| Wire.ListingInPrint | Lab 7/node.c:24-40 | what a listing looks like, the empty one included |
| Wire.PeerFits | Lab 7/common.h:11-22 | a record that fits its C fields prints, terminator included, within the peer buffer with two bytes to spare |
| Wire.RecordsThatFit | Lab 7/common.h:11-22 | which records fit their C fields, and the size of the peer buffer |
| Wire.MessageRoundTrip | Lab 7/node.c:173-210 | a node message, the empty listing included, survives if and only if its fields are non-empty and free of the delimiters around them |
| Wire.ParsedMessageIsClean | Lab 7/node.c:173-210 | whatever text arrives, an announcement read from it could itself be printed and read back |
| Wire.ParsedPeerIsClean | Lab 7/node.c:221-231 | whatever text arrives, a peer read from it could itself be printed and read back |
| Wire.UnsetNameLosesTheListing | Lab 7/node.c:137 | with an empty name the message runs out of fields before the listing |
| Wire.LateTerminator | Lab 7/node.c:192-197 | with the terminator one byte late the names survive if and only if there are none or the stale byte is a terminator or a comma |
| Wire.FormFileStr | Lab 7/node.c:24-40 | the running offsets produce exactly the bracketed listing (a lone bracket when empty), and return one more than its length |
| Wire.FormNodeMsg | Lab 7/node.c:20-22 | the peer text is in the buffer |
| Wire.FormSyncMessage | Lab 7/node.c:132-143 | header and listing end up as one message, and the byte count sent always covers it and its terminator |
| Wire.ReadNode | Lab 7/node.c:221-231 | three strtok calls on the frame yield the record it holds, and leave the remaining fields |
| Wire.ReadFields | Lab 7/node.c:173-186 | four strtok calls on the frame yield the announced node and its listing |
| Pools.LearnShape | Lab 7/node.c:203-205 | after a run of guarded inserts the new records, latest first, stand before the old pool |
| Pools.FirstTimeElements | Lab 7/node.c:203-205 | the records added are duplicate-free, and exactly those read that were not in the pool |
| Pools.LearnIndices | Lab 7/node.c:233-235 | the pool grows by the number of distinct new records, which lead it, and every old entry moves back by that number |
| Pools.FilePoolAfterRun | Lab 7/node.c:196-208 | over any run of messages the file pool is the reversed list of first-time files before the old pool, and never holds two equal records |
| Pools.MostRecentHolder | Lab 7/node.c:380-398 | the holder found for a name is the one learned last; re-announcements do not count, and with none learned the old pool decides |
| Pools.PoolMembers | Lab 7/node.c:256-271 | the pool as a set is exactly the starting records, the announcers and the relayed peers |
| Pools.Multiplicity | Lab 7/node.c:188-235 | a record's copies are its starting copies, one per announcement, and one more exactly when a relay brought it first |
| Pools.AnswerIsARun | Lab 7/node.c:256-271 | reading a reply is one announcement followed by its relayed peers |
| SyncerPass.Ledger | Lab 7 Windows/PeerToPeer/PeerToPeer.c:309-315 | distance from cursor to end, pool size and the end of the pass follow from failures and new peers alone |
| SyncerPass.PassLength | Lab 7 Windows/PeerToPeer/PeerToPeer.c:309-315 | over any trace the pass uses exactly the outcomes up to the first moment twice the failures reach the start size plus everything learned |
| SyncerPass.LivePeersKeepThePassGoing | Lab 7 Windows/PeerToPeer/PeerToPeer.c:309-315 | a pass over a non-empty pool never ends while every peer answers |
| SyncerPass.NextVisit | Lab 7/node.c:281-287 | after a reply with d new peers the next visit is d entries further back: the same entry for d = 0, the announcer or a new peer when d passes the cursor |
| SyncerPass.VisitIs | Lab 7/node.c:281-284 | visit j of a pass is to the entry at position j of the pool as it is by then |
| SyncerPass.NextVisitAfterFailure | Lab 7/node.c:281-287 | a failure makes the cursor skip one entry, also when it is an earlier copy of the record that goes |
| SyncerPass.NothingNewKeepsTheVisit | Lab 7/node.c:281-287 | as long as the replies bring no new peers, every visit is to the record visited first |
| SyncerPass.PassIsARun | Lab 7/node.c:238-288 | while peers answer, the pool of a pass is that of the run of announcements and relays in its replies |
| SyncerPass.PassMultiplicity | Lab 7/node.c:188-235 | after such a pass a record's copies are its starting copies, one per reply announcing it, and one more exactly when a relay brought it first |
| SyncerPass.DeadPassThins | Lab 7 Windows/PeerToPeer/PeerToPeer.c:308-315 | a pass over dead peers visits half the pool, rounded up, and leaves exactly the odd positions (with duplicates: the same records) |
| SyncerPass.Survivors | Lab 7 Windows/PeerToPeer/PeerToPeer.c:308-315 | after k passes exactly the entries whose 1-based start position is a multiple of 2^k are left, in order |
| SyncerPass.EmptyAfterBitLength | Lab 7 Windows/PeerToPeer/PeerToPeer.c:308-315 | the pool, duplicates or not, is empty after k passes if and only if k is at least the bit length of its size |
| Peer.LearnNames | Lab 7/node.c:196-208 | the strtok loop over the listing learns one file per name, in order |
| Peer.ReadListing | Lab 7/node.c:190-209 | the bracketed listing is copied, split and learned; the outer frame is not touched |
| Peer.ReadPeer | Lab 7/node.c:221-236 | the relayed record is inserted at the head unless an equal one is known |
| Peer.PeerNode.ReadMessage | Lab 7/node.c:173-210 | the announcer goes to the head of the node pool even if known, its new files to the head of the file pool |
| Peer.PeerNode.RemoveInactiveByScan | Lab 7/node.c:212-219 | the index scan leaves the pool without the first equal record |
| Peer.PeerNode.RemoveInactiveByFind | Lab 7 Windows/PeerToPeer/PeerToPeer.c:227-232 | the single traversal leaves the same pool as the scan |
| Peer.PeerNode.SendSync | Lab 7/node.c:238-273 | a failed sync removes the peer; otherwise both pools hold what the frames say, also when the peer count never arrives |
| Peer.PeerNode.SyncPass | Lab 7/node.c:280-288 | the index loop over the changing list computes exactly the modelled pass, asks exactly the entries it visits, every read in range, and leaves the file pool of the messages that arrived |
| Peer.WhatAReplyMeans | Lab 7/node.c:241-271 | which results of the socket calls make a sync fail, and what is read in every other case |
| Peer.FilesAfterIsARun | Lab 7/node.c:238-273 | the file pool of a pass is that of the run of messages that arrived |
| Peer.PeerNode.SyncHandler | Lab 7/node.c:119-171 | the handler sends its message, the pool size, and one frame of fixed length per pool entry in order |
| Peer.PeerNode.FindHolder | Lab 7/node.c:380-383 | the first pool entry of the wanted name, or none |
| Peer.ReplyRoundTrip | Lab 7/node.c:119-171 | a clean node's reply is read as exactly its record, its files and its pool, in order |
| GossipClosure.RunIsSound | Lab 7/node.c:238-273 | in every run, also with replies cut short and syncs failing, nothing unreachable is known; as long as none fails nothing known is lost |
| GossipClosure.ForgottenByFailure | Lab 7/node.c:238-252 | an address is only ever lost because a sync with it failed |
| GossipClosure.QuiescentIffClosure | Lab 7/node.c:238-273 | a reached state is unchanged by every full sync if and only if it is the transitive closure |
| GossipClosure.ProductiveStep | Lab 7/node.c:256-271 | every sync that changes anything leaves strictly fewer missing pairs |
| GossipClosure.ProductiveBound | Lab 7/node.c:280-288 | at most n^2 syncs of any run change anything, and one more for each failure |
| GossipClosure.ClosureIsReachable | Lab 7/node.c:280-288 | from every reached state a schedule of full syncs, no longer than the missing pairs, ends in the closure |
| Gossip.RoundRefinesContact | Lab 7/node.c:238-273 | one sync between two nodes, through their frames and pools, is one contact on sets, whether it is answered in full, breaks off before the peers, or fails, and keeps all records printable |
| Gossip.SameAddress | Lab 7/node.c:183-184 | a node is known by its address and port, whatever name a record gives it |
| Gossip.AnswerAsksPosition | Lab 7/node.c:281-284 | an answered round asks the node at its position of the asker's pool, and what is relayed comes from that node's pool |
| Gossip.AnswerTeaches | Lab 7/node.c:256-271 | its asker comes to know that node and all that is relayed, and nobody else anything |
| Gossip.FailureRemovesPosition | Lab 7/node.c:212-219 | a failed round takes one copy of the record at its position out of the asker's pool |
| Gossip.TeachesExactlyWhen | Lab 7/node.c:256-271 | a round teaches something if and only if its answer holds an address the asker's pool lacks |
| Gossip.RunRefines | Lab 7/node.c:275-290 | so is every run of syncs in any order, failures included |
| Gossip.BootstrapIsWellFormed | Lab 7 Windows/PeerToPeer/PeerToPeer.c:511-519 | pools that are empty, or hold the one record a user entered for a running node, with the address for a name, form a network every result below applies to |
| Gossip.AnyBootstrap | Lab 7 Windows/PeerToPeer/PeerToPeer.c:511-519 | whatever clean nodes there are and whichever of their addresses, or none, each user entered, the network has such a start |
| Gossip.RestIsQuiescence | Lab 7/node.c:238-273 | no round between nodes, with its reply whole, cut short or without its peers, teaches an address if and only if no full sync on sets would |
| Gossip.GossipReachesExactlyTheClosure | Lab 7/node.c:238-290 | in every run, failures included, no pool holds an address not reachable from its node in the starting graph, and no answer teaches any node an address if and only if what is known is its own closure; if no round fails nothing is forgotten, and that closure is the starting graph's |
| Gossip.ProductiveRoundBound | Lab 7/node.c:280-288 | at most n^2 rounds of any run teach some node an address, and one more for each round that fails |
| Gossip.GossipCanComplete | Lab 7/node.c:238-273 | from every state nodes can reach, after failures too, at most n^2 further syncs between nodes, each asking some entry of a pool, complete the closure of what is known; without failures, that of the starting graph |
| CursorGossip.TurnIsARound | Lab 7/node.c:281-287 | a visit of a syncer's pass, asking the entry under its cursor, is one round between nodes through the wire |
| CursorGossip.TurnAsksUnderTheCursor | Lab 7/node.c:281-284 | a turn asks the entry under the cursor: its node comes to know that entry's address and all that is known there, and nobody else anything |
| CursorGossip.TurnTakesItsRecords | Lab 7/node.c:281-287 | it takes over every record of that node's pool, and the cursor moves on by one |
| CursorGossip.AllContentIsClosure | Lab 7/node.c:238-273 | where every node started with at most one address, the closure is reached as soon as each node has anyone to ask who tells it nothing new |
| CursorGossip.CursorsStopAtTheClosure | Lab 7/node.c:275-290 | from the bootstrap, in every order of turns, no syncer learns anything from the one its cursor names if and only if every node knows all it can reach |
| CursorGossip.EveryFairScheduleCompletes | Lab 7/node.c:275-290 | from the bootstrap, under every schedule that gives each node a turn in each round, n^2 rounds complete the closure, each node asking only whom its cursor names |
| ConcurrentReader.CrashesExactlyWhen | Lab 7/node.c:150-170 | for every interleaving with inserts and removals: a read goes past the list if and only if some read still to be made finds that the removals before it, less the inserts before it, have used up the entries from its position on |
| ConcurrentReader.FramesComeFromThePool | Lab 7/node.c:157-160 | in every interleaving each frame was the pool entry at its position when it was read |
| ConcurrentReader.StandsThere | Lab 7/node.c:150-170 | in every interleaving, where each starting entry stands: an insert moves it back, a removal in front of it up, its own takes it away |
| ConcurrentReader.OrderIsKept | Lab 7/node.c:150-170 | the starting entries never change their order |
| ConcurrentReader.ReadSends | Lab 7/node.c:157-160 | a read sends the starting entry that stands where the handler does, removals included |
| ConcurrentReader.PaidRemovalsAreSafe | Lab 7/node.c:212-219 | if at each read the removals so far do not outnumber the inserts so far, every read is in range |
| ConcurrentReader.FramesBesideInserts | Lab 7/node.c:150-170 | beside head inserts alone no read goes out of range, the starting entries stay in order behind the inserted ones, and each frame is the starting entry at its recorded origin or an inserted one |
| ConcurrentReader.PrefixIsSent | Lab 7/node.c:150-170 | at any moment the starting entries sent are exactly a prefix of the starting order, at least reads minus inserts long |
| ConcurrentReader.FinishedHandler | Lab 7/node.c:150-170 | a finished handler has sent at least n - K of the n starting entries, a prefix, whatever the interleaving with K inserts |
| ConcurrentReader.OneRemovalCrashesTheReader | Lab 7/node.c:150-170 | for every non-empty pool one removal at the right moment is enough to send the last read past the list |
| FileTransfer.WordsSplit | Lab 7/node.c:107 | words end at each of the six white-space characters |
| FileTransfer.OneWord | Lab 7/node.c:107 | and nowhere else |
| FileTransfer.BodyInPrint | Lab 7/node.c:79-83 | in print and in a copy one blank stands behind every word |
| FileTransfer.WordsThatFit | Lab 7/common.h:11-14 | the word buffer takes words of up to 31 characters |
| FileTransfer.WordsSurvive | Lab 7/node.c:79-113 | the download has the same word sequence as the source if and only if the source holds no terminator byte |
| FileTransfer.CopyIsStable | Lab 7/node.c:373-375 | a copy prints like its original, and a copy of a copy is the copy, if and only if no word starts with a terminator byte |
| FileTransfer.InFile.ScanWord | Lab 7/node.c:107 | one scan reads the next word into the buffer and reports the end of the file |
| FileTransfer.CountWords | Lab 7/node.c:105-107 | the count pass finds the number of words |
| FileTransfer.SendWords | Lab 7/node.c:110-113 | the send pass sends one full buffer per word, in order |
| FileTransfer.FileRequestHandler | Lab 7/node.c:88-117 | count and frames agree; a missing file is answered by -1 and nothing else |
| FileTransfer.DownloadFile | Lab 7/node.c:63-83 | the received words are written one by one behind each other; a negative count creates nothing |
| FileTransfer.PrintFile | Lab 7/node.c:369-377 | the words of a file are printed in order |
| FileTransfer.PrefixWords | Lab 7/node.c:78-83 | the part of a file written out so far holds all its words if and only if only white space is missing |
| FileTransfer.PrintedInFull | Lab 7/node.c:384-395 | right after the download the node prints all of the saved file if and only if the bytes still buffered are white space |
| FileTransfer.PrintsLikeTheOriginal | Lab 7/node.c:373-395 | it prints what the holder prints for the original if and only if, moreover, no word of the original starts with a terminator byte |
| FileTransfer.ShortDownloadPrintsNothing | Lab 7/node.c:384-395 | when nothing has been written out yet nothing is printed, which is the whole file only if it has no words |
| FileTransfer.RetrieveFile | Lab 7/node.c:384-395 | fetching a file saves its words and prints the words of what its stream has written out by then |
| IntStack.Stack.Below | Lab 1/ClientServerStack/ClientServerStack.c:137-145 | the prev chain from the top is the stack from the top down, ending in null after `size` nodes |
| IntStack.Stack.CellConservation | Lab 1/ClientServerStack/ClientServerStack.c:38-92 | node cells allocated are cells freed plus the size, and the last node of the chain is `bottom` when there is one |
| IntStack.Stack.Push | Lab 1/ClientServerStack/ClientServerStack.c:38-64 | a cell goes on top in one newly allocated node; a null cell is refused and changes nothing |
| IntStack.Stack.Pop | Lab 1/ClientServerStack/ClientServerStack.c:73-86 | the top cell comes off and exactly one node is freed; an empty stack yields null and changes nothing |
| IntStack.Stack.Clear | Lab 1/ClientServerStack/ClientServerStack.c:88-92 | no node stays live; the int cells stay allocated |
| IntStack.Stack.PopInt | Lab 1/ClientServerStack/ClientServerStack.c:114-121 | the top int, or -1 for an empty stack |
| IntStack.Stack.Display | Lab 1/ClientServerStack/ClientServerStack.c:137-145 | the whole stack is shown from the top |
| StackServer.Handle | Lab 1/ClientServerStack/ClientServerStack.c:197-237 | each command on the linked stack does and prints what the plain interpreter does on a sequence |
| StackServer.PushThenPop | Lab 1/ClientServerStack/ClientServerStack.c:197-230 | a pop undoes a push and prints what was pushed; peek, size, isempty and display after a push |
| StackServer.EmptyStack | Lab 1/ClientServerStack/ClientServerStack.c:94-121 | what an empty stack prints, that a pop leaves it empty, and that a new stack is empty |
| StackServer.OtherCommands | Lab 1/ClientServerStack/ClientServerStack.c:197-237 | every other command leaves the stack alone |
| StackServer.PushThenPopInHistory | Lab 1/ClientServerStack/ClientServerStack.c:193-237 | after any history a push and a pop leave the stack as it was |
| StackServer.PushesPileUp | Lab 1/ClientServerStack/ClientServerStack.c:38-64 | pushes pile up in order |
| StackServer.StatusIs | Lab 1/ClientServerStack/ClientServerStack.c:239-265 | the loop runs as long as every turn reads a request that is no exit and acknowledges it, and ends in an orderly way if and only if the first other turn is an exit |
| StackServer.CarriedOutUnacknowledged | Lab 1/ClientServerStack/ClientServerStack.c:246-256 | a request whose acknowledgement fails has still been carried out and printed |
| StackServer.StaleWordIsIgnored | Lab 1/ClientServerStack/ClientServerStack.c:186-213 | runs that differ only in second words outside of pushes leave the same stack and print the same |
| StackServer.ServerJob | Lab 1/ClientServerStack/ClientServerStack.c:186-266 | the loop refines the plain session; every exit leaves no live node cell, and int cells equal pushes |
| LockStep.EveryStateIsFaithful | Lab 1/ClientServerStack/ClientServerStack.c:295-349 | in every reachable joint state requests arrive in order and unchanged and the counts of both sides match |
| LockStep.LockStepRefinesFold | Lab 1/ClientServerStack/ClientServerStack.c:193-349 | at most one request is unanswered, and the server's stack is the fold of the first k or k + 1 requests sent, k being the acknowledgements received |
| LockStep.SentIsTyped | Lab 1/ClientServerStack/ClientServerStack.c:295-336 | the client sends exactly what the user types: each command by its code, and after a push the number typed, in order |
| LockStep.StackIsTyped | Lab 1/ClientServerStack/ClientServerStack.c:193-349 | a serving server's stack is the fold of what was typed, up to the last request it has taken in |
| LockStep.Trip | Lab 1/ClientServerStack/ClientServerStack.c:193-349 | from every reachable idle state a typed command is sent, carried out and acknowledged, and both sides are idle again |
| LockStep.EndedClientIsSilent | Lab 1/ClientServerStack/ClientServerStack.c:323-349 | a client that exits, or whose pipe fails, sends nothing more |
| LockStep.EndedServerIsSilent | Lab 1/ClientServerStack/ClientServerStack.c:248-264 | a server whose pipe fails has cleared its stack and takes in nothing more |
| LockStep.ExitIsNeverReceived | Lab 1/ClientServerStack/ClientServerStack.c:323-326 | with this client the server never receives its exit command, and no acknowledgement is wrong |
| LockStep.LoopFolds | Lab 1/ClientServerStack/ClientServerStack.c:193-256 | the requests this client sends keep the server's loop running on exactly the folded stack |
| LockStep.LoopPrints | Lab 1/ClientServerStack/ClientServerStack.c:197-237 | and each request prints its answer to the stack it meets |
| LockStep.ServeReceived | Lab 1/ClientServerStack/ClientServerStack.c:193-349 | in every reachable joint state the server's linked stack, as the command loop builds it, equals the fold of the first k or k + 1 requests sent |
| PrivateHandoff.EveryStateIsSound | Lab 5/server2.c:65-79 | ownership of records, pairing of jobs and senders, and the balance of allocations hold in every reachable state |
| PrivateHandoff.RepliesGoToTheirSenders | Lab 5/server2.c:17-35 | each job replies at most once and only to the sender whose datagram created it; a job of a failed receive replies to the sender before |
| PrivateHandoff.RepliesExactlyWhen | Lab 5/server2.c:17-35 | a job has a reply if and only if it has sent one that did not fail |
| PrivateHandoff.ReceivedIsLogged | Lab 5/server2.c:65-68 | the senders are those of the receives, in order |
| PrivateHandoff.LastSenderIs | Lab 5/server2.c:65-68 | the address left behind is that of the latest receive that did not fail, or zero |
| PrivateHandoff.OneJob | Lab 5/server2.c:17-79 | from every waiting state a datagram can be received, handed over and answered, and leaves no record behind |
| PrivateHandoff.RecordsAreConserved | Lab 5/server2.c:65-79 | no record is read or freed while not allocated, each is freed at most once, and live records are those of jobs before their free plus at most one pending |
| SharedHandoff.EveryStateIsSound | Lab 7/node.c:310-331 | the bounds below hold for every handler in every reachable state |
| SharedHandoff.SharedCellBound | Lab 7/node.c:119-120 | the sync handler of request k reads a socket with index at least k |
| SharedHandoff.OneToOneService | Lab 7/node.c:310-347 | every handler serves its own request in exactly the runs where each copies before the next write to what it copies, and then no two share a socket |
| SharedHandoff.FileRecordBound | Lab 7/node.c:344-347 | a file handler's socket is no older than its request, and the name beside it no older than the socket |
| SharedHandoff.ServesOwnExactlyWhen | Lab 7/node.c:310-347 | a sync handler reads its own socket if and only if no socket is written between its start and its copy, a file handler its own name and socket if and only if no name is stored in between |
| SharedHandoff.OneSyncRequest | Lab 7/node.c:325-331 | from every accepting state a sync request can be written, handed over and served on its own socket |
| SharedHandoff.OneFileRequest | Lab 7/node.c:335-347 | and a file request on its own socket with its own name |
| SharedHandoff.RequestsWithoutHandler | Lab 7/node.c:335-353 | other requests, and file requests whose name does not arrive, use the cell and start no handler |
| SharedHandoff.NameCanBeAnothers | Lab 7/node.c:335-347 | a second file request before the copy can make the first client be served the second one's file |
| SharedHandoff.FirstRequestCanBeLost | Lab 7/node.c:325-331 | two requests in quick succession can both be served on the second one's socket |

## Left out

- Sockets, pipes, byte order, address conversion, signals and sleeping: foreign calls. A channel delivers whole frames in order, and a node's announced address is its identity.
- What `get_my_ip` really returns: name, address and port of a node are inputs.
- The fixed sizes of the send buffer, the listing buffer and the receive-side name fields: these buffers are as long as their text needs. Only the peer buffer's bound is proved.
- Directory reading, prompts, the user loops, and opening files: the listing and the file text are given sequences.
- Printing after a failed download, where the source goes on to read a file it could not open: the model stops there.
- Failing allocation and thread creation, and memory effects below the level of whole list calls and whole records.
- The write to `buf[-1]` after a failed `recvfrom` in Lab 5: undefined in C; only the job it leads to is modelled.
- The padding bytes of records compared with `memcmp`: records are values.
- Words of 32 or more bytes: they overflow the word buffer in the source, so the transfer methods require `Fits`.
- Pool records longer than their fields in the record type: they overflow the peer buffer in the source, so `SyncHandler` requires `FitsRecord` of what it sends.
- The width of list sizes and loop counters: they are unbounded.
- Freed list nodes: a removed node leaves the chain, and its cell is not tracked (stack nodes and connection records are).
- The handshake byte before the first stack request: the joint system starts when both sides are ready.
- `Lab 7/code_archive.c`, the Lab 4 programs, `Lab 5/client.c`, `ping`, `sendrecv`, `recvsend`: only easy claims, or not built.
- LinkedLists.LinkedList.GetVal: needs a non-empty list, because reading an empty one dereferences null in the source.
- Peer.PeerNode.ReadMessage: needs a frame with all four fields, because the source dereferences a missing one; `Wire.MessageRoundTrip` says which messages have them.
- Peer.PeerNode.SyncPass: covers one pass; the endless loop around it is a sequence of such passes.
- Gossip.GossipCanComplete: the rounds it adds do not fail; those before may.
- CursorGossip.EveryFairScheduleCompletes: the replies are whole and no sync fails; each turn is one step, so a pool does not change while it is being relayed.
