# Verification of the MCC chat protocol

A Dafny model of the chat system's hand-written "MCC" protocol and of the code
around it: the byte-level client codec, the byte-level server, the in-memory
store behind it, the packet-level second server, the client's name caches, the
blocking socket transfers and the line-editing console.

The code is modelled as it is written, in its own form: classes over byte
arrays with moving cursors, loops, 32-bit truncation at every place where the
source truncates. `dafny verify dfyconfig.toml` checks everything.

## How the parts fit together

* `Common`, `Wire`: integers of 32 bits and their four little-endian bytes; the
  packets as functions on byte strings; reading a packet back undoes writing it.
* `Buffers`: `memcpy` to a moving cursor, and the list responses whose header
  slot is filled last.
* `Databases`, `Server`, `Client`: the three classes. Each method is proved
  equal to a function of the old state and the bytes (`StoreAfter`, `ReplyTo`,
  `EncodeRequest`, `Observe...`). A failed `assert` of the source is the outcome
  `Aborted`; a read outside a buffer is the observation `OutOfBounds`. The order
  in which the hash map is walked is chosen freely by the loop and handed out as
  a ghost sequence.
* `Format`: what requests and answers look like, byte by byte in plain numbers,
  without the encoders, decoders and constants of the other modules.
* `ChatSystem`: numbered users with names and FIFO mailboxes; no bytes.
* `Refinement`, `Runs`: one exchange of the byte system agrees with the chat
  system for every walk order and every content of the receive buffers if and
  only if `Fits` holds, a condition on the abstract state and the request; whole
  runs agree if and only if every request fits when it is made. `Tails` says
  exactly when stale bytes behind an answer matter.
* `Invariants`: what holds of the store in every run whatever, faithful or not.
* `Conservation`: for one user, one exchange keeps the balance of acknowledged,
  decoded and queued messages in all circumstances if and only if it is safe for
  that user (`SafeFor`), and runs of such exchanges lose, double and reorder
  nothing of that user's mail, however the others' requests fare.
* `Session`: a client object and a server object exchanging requests over byte
  arrays do exactly what `Refinement.Exchange` says, request after request.
* `PacketServer`, `ClientCache`, `Sockets`, `Consoles`: the remaining parts, with
  their own main results.

## What the code does that its documentation does not say

* The length field of a non-empty Users response and of every successful Recv
  response counts the header as well (server/server.cpp:122, server/server.cpp:222),
  while the repository's README.md:44-48 calls it the payload length. `Server.LengthFieldExactly`
  says which answers keep the documented promise and which never do.
* When such a response is 2^32 bytes or longer, the returned size wraps and is
  shorter than the packet; `Fits` excludes exactly that.
* A client that receives the negative Recv response goes on reading
  (client/client.cpp:160-165), so its messages are whatever the buffer held:
  `Refinement.PhantomMessages`.
* A Send with an empty message, or with one whose length wraps to 8 or less,
  fails an assertion (server/server.cpp:160); a longer wrapping message is cut.
* The 2^32-plus-first registration gives out id 0 again and empties that
  mailbox: `Databases.IdsFreshExactly`, `Invariants.WrapLosesMail`.
* Usernames are sent with a 4-byte length and registering never fails, unlike
  the repository's README.md:176-177 and README.md:244.
* The packet-level Recv does not drain the queue.
* A message with a carriage return or a backspace in it, written by another
  user, garbles the reader's console: `Consoles.WriteExactly`.

## Model

| member | source | states |
|---|---|---|
| Common.LittleEndianRoundTrip | client/client.cpp:41-46 | the bytes copied out of an integer denote that integer |
| Common.FromLittleEndianRoundTrip | server/server.cpp:165-169 | the integer read from bytes has exactly those bytes |
| Wire.RequestRoundTrip | client/client.cpp:6-66 | the server finds type and payload of every request again, whatever follows it in its buffer; the payload is cut where the 32-bit length wrapped |
| Wire.RecordsRoundTrip | server/server.cpp:133-150 | the decode loop reads back the list the encode loop wrote, anywhere in a buffer, and its cursor stops exactly at the end of what was written |
| Wire.DecodeExtends | client/client.cpp:119-131 | decoding never depends on bytes behind the ones it needs |
| Format.U32Format | server/server.cpp:165-169 | the four bytes of a number, least significant first, each in plain arithmetic |
| Format.RequestFormat | client/client.cpp:6-66 | every request byte by byte: type 0 to 3, length field, ids and text at their positions |
| Format.RecordFormat | server/server.cpp:139-147 | a list element byte by byte: id, then the text's length modulo 2^32, then the text |
| Format.ListFormat | server/server.cpp:133-150 | each element of a list stands right behind the ones before it |
| Format.ReplyFormat | common/common.h:10-19 | every answer for any store, payload and walk: first byte 0xF0 plus the request's type, the value in plain numbers for known and unknown ids, the number or count and the list; and when there is no answer |
| Databases.Database.Register | server/database.cpp:10-13 | the next id gets the name and an empty queue, and the counter wraps at 2^32 |
| Databases.Database.Queue | server/database.cpp:15-22 | true exactly for a registered recipient, whose queue grows by the message at its end; nothing else changes |
| Databases.Database.Subscript | server/database.h:81-83 | returns the entry; inserts an empty one if there was none |
| Databases.IdsFreshExactly | server/database.cpp:10-13 | ids are distinct if and only if there are at most 2^32 registrations |
| Databases.AtMostAllIds | server/database.h:98-101 | a store never has more than 2^32 users |
| Server.MccServer.ParseRequestRegister | server/server.cpp:12-34 | new store, returned size and whole send buffer |
| Server.MccServer.ParseRequestUsers | server/server.cpp:82-157 | for some walk order, the returned size and the whole send buffer; the store is not touched |
| Server.MccServer.PutUsers | server/server.cpp:133-150 | the walk lists everybody but the requester once, with cursor and 32-bit length counter in step |
| Server.MccServer.ParseRequestSend | server/server.cpp:159-196 | status by sender first, then target; new store and send buffer; assertion failure without effect |
| Server.MccServer.ParseRequestRecv | server/server.cpp:198-259 | the queue is written out and then emptied; no phantom user appears |
| Server.MccServer.PutMessages | server/server.cpp:220-258 | count, messages cut to their length field, header last |
| Server.MccServer.Parse | server/server.cpp:261-278 | dispatch: store, size and buffer depend only on type and announced payload |
| Server.CountIsRight | server/server.cpp:105 | the count computed in 32-bit arithmetic before the walk is the number of entries the walk emits, even with 2^32 users |
| Server.OthersContents | server/server.cpp:133-147 | exactly the other users are listed, under their own ids |
| Server.ListingSize | server/server.cpp:149 | the listing's size is a sum over the other users and does not depend on the walk order |
| Server.ExtentIsExact | server/server.cpp:12-34 | the room an answer takes, known without the walk order |
| Server.LengthFieldExactly | server/server.cpp:122-156 | every answer's length field is its payload length except that of the counted lists, which never is; and when the returned size covers the packet |
| Server.StepFrame | server/server.cpp:82-259 | in any store: only Register changes who is there, giving the next id, taken or not, the name and an empty mailbox; otherwise nobody is renamed and only the target's and the requester's mailbox can change, and how |
| Client.MccClient.EncodeRequestSend | client/client.cpp:34-52 | the send buffer begins with the encoding and is untouched behind it |
| Client.MccClient.HandleRespUsers | client/client.cpp:99-133 | accepted exactly if the first byte is 0xF1 and the value 0; then the cache is exactly that of the listed entries, otherwise it is left alone |
| Client.MccClient.HandleRespRegister | client/client.cpp:73-96 | accepted exactly if the first byte is 0xF0 and the value 0; then the id is that of bytes 6 to 9, otherwise the caller's id stays |
| Client.MccClient.HandleRespSend | client/client.cpp:135-147 | accepted exactly if the first byte is 0xF2; then the status is byte 5, otherwise the caller's status stays |
| Client.MccClient.ReadNames | client/client.cpp:119-131 | the decode loop fills the cache with the decoded records, later entries winning |
| Client.MccClient.HandleRespRecv | client/client.cpp:149-178 | accepted exactly if the first byte is 0xF3; then exactly the decoded messages are appended, and a negative value is only logged |
| Client.MccClient.ReadMessages | client/client.cpp:167-176 | the decode loop appends the decoded records in order |
| Client.RecvRoundTrip | client/client.cpp:155-177 | for a queue of any length: as many messages as the 32-bit count says, each cut to its 32-bit length, whatever the buffer held |
| Client.RecvExactly | server/server.cpp:220-249 | the client gets the queue itself if and only if no count or length overflowed |
| Client.UsersRoundTrip | client/client.cpp:105-132 | the client's cache is that of the list the server wrote |
| Client.NamesListed | client/client.cpp:130 | the cache has exactly the listed names, each with the id of an entry of that name |
| Client.LastIdWins | client/client.cpp:130 | of several entries of one name the last id stays |
| Client.CacheIgnoresOrder | client/client.cpp:118-131 | with distinct names the cache does not depend on the order of the list |
| ChatSystem.StepWellFormed | server/database.cpp:15-22 | every mailbox belongs to a user and only users appear as senders |
| Refinement.InboxIsIrrelevant | server/server.cpp:261-278 | stale bytes behind a request have no influence on store or answer |
| Refinement.RegisterExactly | server/server.cpp:12-34 | Register agrees with the chat system if and only if fewer than 2^32 users exist and the name fits its length field |
| Refinement.SendExactly | server/server.cpp:159-196 | Send agrees if and only if the message is neither refused by the assertion nor cut |
| Refinement.RecvFits | server/server.cpp:198-259 | a registered requester whose answer stays below 2^32 bytes gets exactly the mailbox, in order |
| Refinement.TooMuchMailMisfits | server/server.cpp:222-258 | a larger answer is never decoded to the mailbox when nothing stale follows it |
| Refinement.UnknownMisfits | client/client.cpp:160-165 | an unregistered requester's client reads outside the answer |
| Refinement.PhantomMessages | client/client.cpp:160-177 | and returns any list of messages the buffer happened to hold |
| Refinement.UsersExactlyKnown | server/server.cpp:103-156 | a registered requester's client learns exactly the other users for every walk order, if and only if the answer stays below 2^32 bytes |
| Refinement.UsersUnknown | server/server.cpp:93-101 | an unregistered requester is refused |
| Refinement.CacheInvertsStore | client/client.cpp:118-131 | with distinct usernames the cache is the exact inverse of the store without the requester, for every walk order |
| Runs.StepExactly | server/server.cpp:261-278 | one exchange agrees with the chat system for all walk orders and buffer contents if and only if the request fits |
| Runs.RefinementTheorem | server/server.cpp:261-278 | a run from the server's start refines the chat system if and only if each request fits when it is made |
| Conservation.BalancedExactly | server/server.cpp:159-259 | one exchange keeps a user's balance for all walk orders and buffer contents if and only if it is safe for that user |
| Conservation.ConservationTheorem | server/server.cpp:235-256 | for each user, in every run safe for that user: the acknowledged Sends are exactly what the user's client decoded so far followed by the queue, in order |
| Conservation.FitsIsSafe | server/server.cpp:261-278 | a request on which the two systems agree is safe for everybody |
| Invariants.ProvenanceTheorem | server/server.cpp:177-186 | in every run and at every moment all queued messages name registered senders, and so do all that are decoded from an answer to a registered requester below 2^32 bytes |
| Invariants.DecodedExactly | client/client.cpp:160-177 | below 2^32 bytes, a Recv yields registered senders only, for all walks and buffer contents, if and only if the requester is registered |
| Invariants.RegistryTheorem | server/database.cpp:10-13 | in every run the ids in use are the first n naturals, or all 2^32, for n registrations, and each belongs to the latest registration it was given to |
| Invariants.NamesNeverChange | server/database.cpp:10-13 | in every run of at most 2^32 registrations the k-th one has id k and nobody is removed or renamed |
| Invariants.WrapLosesMail | server/database.cpp:10-13 | once the ids have run out, one more registration takes an id from its holder, whose mailbox is emptied |
| Tails.TailExactly | client/client.cpp:73-178 | stale bytes behind an answer have no influence on what the client sees if and only if it is neither a negative Recv answer nor cut short |
| Session.RoundTrip | client/client.h:15-92 | client and server objects over byte arrays: store and observation are those of the specified exchange |
| Session.ServeAll | server/server.h:64-70 | a list of requests over the two objects is a legal run with its store and its observations, up to the first failed assertion |
| PacketServer.ServerApp.HandleRequestRegister | server/server_app.cpp:16-32 | a complete packet registers the name under the next id and is answered with value 0 and that id; any other changes nothing and gets no answer |
| PacketServer.ServerApp.HandleRequestUsers | server/server_app.cpp:35-61 | a registered requester gets value 0 and everybody else exactly once under the right name, an unknown one value 1 and nobody; an incomplete packet gets no answer |
| PacketServer.ServerApp.HandleRequestRecv | server/server_app.cpp:63-87 | a registered requester gets value 0 and the whole queue, which stays; an unknown one gets value 1 and no messages; an incomplete packet gets no answer |
| PacketServer.RegisterImplementationsAgree | server/server_app.cpp:16-32 | packet and byte answer carry the same id, and the stores are the same if and only if the name fits its length field |
| PacketServer.UsersImplementationsAgree | server/server_app.cpp:35-61 | the packet's value is negative exactly for an unknown requester; for the same walk and all buffer contents the byte client sees what the packet spells out if and only if the byte answer stays below 2^32 bytes |
| PacketServer.RecvImplementationsAgree | server/server_app.cpp:63-87 | the packet's value is negative exactly for an unknown requester and its messages are the mailbox; the byte client decodes that value and those messages for all buffer contents if and only if the requester is registered and the byte answer stays below 2^32 bytes |
| PacketServer.RecvStoresAgree | server/server_app.cpp:76-82 | the stores are the same afterwards if and only if nothing was queued |
| ClientCache.App.Refresh | client/app.cpp:97-122 | the new cache is that of the response; when it differs from the old one the second map is rebuilt; after a list without repeated ids the two maps are each other's exact inverse if they were before |
| ClientCache.App.Poll | client/app.cpp:75-134 | after the polls of any run the cache has exactly the names of the users other than the requester at the last poll, each under the id of a user of that name, if the requester was registered by then; otherwise it is as it was before; the two maps are exact inverses |
| ClientCache.App.ChatWithUser | client/app.cpp:152-191 | an accepted target is still there when it is looked up after any number of polls, so the lookup inserts nothing, and the id found is that of another registered user with the target's name |
| ClientCache.App.TargetId | client/app.cpp:190 | indexing inserts exactly when the name is missing |
| ClientCache.RoundTripExactly | client/app.cpp:117-122 | the two maps are exact inverses if and only if no id has two names |
| ClientCache.PollDistinct | client/app.cpp:102-106 | no id occurs twice in an answer to a poll |
| ClientCache.CacheNeverForgets | client/app.cpp:163-190 | in every run of at most 2^32 registrations a name once cached stays cached through all later polls, always under the id of another user of that name |
| ClientCache.CacheMeans | client/app.cpp:97-122 | what the cache knows after any number of polls of a running server, whether or not ids ever wrap |
| Sockets.Socket.SendB | tcp_lib/socket.h:98-112 | for every schedule against which the loop ends: a contiguous prefix is handed over, as many bytes as the OS's answers add up to and at most all; true if and only if it is all of the data; only the last call of a false one failed |
| Sockets.LoopsForeverExactly | tcp_lib/socket.h:101-110 | against any other schedule, and only then, the loop goes on after any number of calls |
| Sockets.FairTerminates | tcp_lib/socket.h:138-146 | if the OS never says "would block" k times in a row the loop ends |
| Sockets.Socket.ReceiveB | tcp_lib/socket.h:135-148 | the buffer front holds the next bytes of the stream, as many as the OS's answers add up to and at most the target, and the rest is untouched; true if and only if the target is reached; only the last call of a false one failed; the peer may have written less |
| Sockets.TransferMeans | tcp_lib/socket.h:101-110 | verdict and number of calls of a blocking transfer in terms of the sum of the OS's answers: true if and only if they add up to the target, and no call is made once they do |
| Sockets.FilledMeans | tcp_lib/socket.h:135-148 | the buffer position by position: the next bytes of the stream in front, the old contents behind |
| Sockets.SendThenReceive | tcp_lib/socket.h:98-148 | sending and then receiving reproduces the data |
| Sockets.InterleavedTransfer | tcp_lib/socket.h:98-148 | under every interleaving of the two loops and all answers of the OS the receiver holds a prefix, and the sender has handed over all that the OS offered to take before it failed; a loop that ended made exactly the calls of a blocking transfer; complete on both ends means the data arrived |
| Sockets.SenderProgress | tcp_lib/socket.h:101-110 | a call of a sender that is not done moves as much as the OS takes of what is missing |
| Sockets.ReceiverProgress | tcp_lib/socket.h:138-147 | a call of a receiver that is not done takes as much as the OS hands over of what is in flight and missing |
| Sockets.SenderIsSendB | tcp_lib/socket.h:98-112 | the sender's turns among any others move exactly what the calls of `SendB` against the same answers move |
| Sockets.EverythingArrives | tcp_lib/socket.h:98-148 | liveness: if nothing fails and the OS again and again moves a byte for the sender and later one for the receiver, all that is wanted arrives, within as many such rounds as bytes are wanted |
| Consoles.Console.Read | console/console.cpp:20-61 | reads up to the first newline; afterwards the console is in the state of a session that started the read and saw exactly those events; prompt and input are empty, and for printable text the finished prompt and line stand above an empty row, below everything written meanwhile; the line is the fold of the reader's own keystrokes |
| Consoles.Console.WriteLine | console/console.cpp:63-93 | the bytes that reach the terminal |
| Consoles.LineIgnoresWrites | console/console.cpp:27-60 | the result of a read does not depend on interleaved writes |
| Consoles.TypedVerbatim | console/console.cpp:49-60 | what is typed without newline (10) and delete (127) is the line, byte for byte, and the newline ends it |
| Consoles.DeleteCancels | console/console.cpp:34-43 | anywhere in the input, any other key followed by delete leaves no trace |
| Consoles.FirstKey | console/console.cpp:36-50 | delete with nothing typed does nothing; the end of the input enters byte 0xFF |
| Consoles.StartReadExactly | console/console.cpp:21-25 | a prompt is displayed as the current line if and only if it has no control byte |
| Consoles.PressExactly | console/console.cpp:34-51 | a keystroke keeps the display right if and only if it is not a typed backspace or carriage return |
| Consoles.WriteExactly | console/console.cpp:63-93 | a write puts its lines above and restores prompt and input if and only if it has no backspace or carriage return |
| Consoles.ScreenTheorem | console/console.h:8-13 | under any interleaving the last row always is prompt plus input with the cursor behind it, and everything else stands above it in order, up to trailing blanks, if and only if only printable text is prompted, typed and written |

## Left out

- Server.MccServer.Parse: only the four request types; the fall-through for response types into the half-migrated protobuf path (server/server.cpp:279-287) is not part of this model.
- Server.MccServer.Parse: its preconditions say that the buffers are large enough, because nothing in the source tests it and a violation is undefined behaviour.
- Server.MccServer.ParseRequestSend: like the other handlers it takes the announced payload as a value; in the source it is a pointer and a length into the receive buffer.
- Sockets.Socket.SendB: called only where the source's loop ends; for other schedules, such as a peer that closed the connection and for which `recv` returns 0 for ever, only `LoopsForeverExactly` speaks. Counts are unbounded, so the conversion between `size_t` and `int` is not modelled.
- Invariants.ProvenanceTheorem: for answers of 2^32 bytes and more, which are cut off, nothing is said about the senders a client makes of stale bytes.
- Tails.TailExactly: queues of 2^32 messages and more are left out; their count wraps, so that a cut answer can still be complete.
- Consoles.ScreenTheorem: one reader, unbounded terminal width, and every byte but backspace, newline and carriage return counts as a glyph of width one, so tabs, escape sequences and multi-byte characters are not modelled.
- ClientCache.App.Poll: assumes that polls arrive complete; the 1000-byte receive buffers of client/app.cpp are not modelled.
- Sizes of type `size_t` are unbounded naturals; only 32-bit values wrap.
- Concurrent access: every request, every poll and every critical section of the console is one atomic step; unlocked reads of the maps are not modelled.
- Protobuf encoding, socket setup, threads, termios, logging, menus and the command parser of the client.
- `Database::getUsername` and `Database::print`, which nothing uses.
