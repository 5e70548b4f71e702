# PekarDrive: verified model

PekarDrive is a small distributed file store: clients talk to one master, the master forwards to registered workers,
and a separate library (PP) carries long messages in fixed-width frames. This project models the parts where the
logic is, in Dafny 4.11, and proves what the protocol, the registry and the request path guarantee.
`dafny verify dfyconfig.toml` checks everything.

| file | what it models |
|---|---|
| Bytes.dfy | bytes, little-endian fields, C strings, memcpy, realloc |
| Framing.dfy | the in-band framing of PP on sequences: frames, receiving, the exact round-trip condition |
| Channel.dfy, Transmission.dfy | a connection, and the transmission object with its buffers and loops |
| Lifecycle.dfy | the one-shot open / error / used life of a transmission, over all call sequences |
| Serializer.dfy, Packet.dfy | the two byte codecs |
| Text.dfy | the `;` separator, decimal counts, newline-joined listings and substring search |
| Registry.dfy, ServerTable.dfy | the worker table: the meaning of add, remove and ping sweep, and the array that implements it |
| Interleaving.dfy | any number of threads on that table under its plain mutex, one table access at a time |
| RegistryRuns.dfy | the registry with its history over all runs |
| Worker.dfy, StoreRuns.dfy | a worker's files and its request handler, and what its files are after any packets |
| Answers.dfy | what a worker writes back for each request, byte for byte, and what its reader decodes |
| Requests.dfy | what a write or delete does to the workers' files: which worker the master picks, and when |
| Master.dfy, Client.dfy, Registration.dfy | the master's handler, the client library, and a worker's registration |
| System.dfy | registry and stores as one step machine, with whole-run results |
| Serving.dfy | the master's loops as runs of that machine: what each ping time and each client's bytes mean, and what clients get |

The main results:

* **Transport.** Receiving the frames of a message gives the message cut behind its first full chunk that ends in the
  pad byte, without trailing pad bytes; so a non-empty message comes back if and only if it is clean, and clean
  messages sent back to back are received one by one. The same holds of two transmission objects on one connection.
* **Sweep.** The ping sweep removes from the table it walks and so passes over the entry after each removal. It removes
  exactly the odd-numbered entries of each run of failed workers; k sweeps are enough if and only if no run has 2^k
  entries; 16 always are, and 15 are not.
* **Locking.** Under every interleaving the table is the completed calls applied one at a time in lock order. With the
  mutex as declared, a sweep that meets a failed worker waits for itself forever: it ends if and only if there is none,
  and a run from the empty table reaches that deadlock.
* **Requests.** A write from a client puts exactly the client's file on the first worker of the table, changes nothing
  else and returns the length. A delete of a newline-free name goes to the first worker that lists an entry containing
  it, and comes to nothing if a worker asked before that does not answer or lists too much for the master's buffer; the
  file goes from its first holder if and only if that worker and all before it answer with a listing that fits and none
  before lists a containing entry. Workers behind do not matter. A registration is read back for certain if and only if
  its text has at most 18 bytes.
* **A worker's files.** A worker survives a sequence of packets if and only if each one with the master's token has an
  operation, a `;` where one is needed, and for READ a file that exists by then; after such a sequence each file is the
  fold of the authorised changes that name it, and a READ puts that content on the wire so that every reader with room
  for it decodes it whole. Without the token nothing is answered.
* **Whole runs.** A write goes to the oldest registration of the run that is still in the registry. While no worker
  registers, fails or comes back, sixteen sweeps leave exactly the answering workers, whatever is served in between.
  Written data stays until that file is written there again or a delete ends there, a deleted file stays gone until it
  is written there again, and everything a worker holds is the data of the last write that went there.
* **The loops.** The master's loops over any pings, outages and client bytes are such a run, event for event: a ping
  time is a sweep, and a packet that is sent whole is the event that packet asks for, whatever was written behind it.
  So sixteen ping times leave exactly the answering workers, a client's write is there byte for byte until a client
  writes or deletes that name, and a client's delete lasts until a client writes it.

How the C is read: LP64 and little endian. Memory the source never initialises (fresh buffers, bytes behind a buffer
that a write drags along) is arbitrary, and every result holds whatever it contains, but for the two places named
under "Left out". Where the source would leave a buffer, follow a null pointer or use an unset variable, the model has
an explicit outcome (`Fault`, `Down`, `Broken`, `Lost`, `None`). Workers answer or do not, as a set says that changes
only between requests; one that does not answer is connected and times out, so that `conn_read` is below zero. A
worker's directory is a map from names to contents, listed in any order and with the two dot entries.

Where the code and its intent differ, and what the model does:

* `transmit` fills chunk buffers of `chunk_size - 72` bytes but sends `chunk_size` bytes from them, and `receive` steps
  by `chunk_size`. The transmission class takes the frame length as a parameter of its constructor: the code's
  (`asWritten`, each frame dragging 72 arbitrary bytes along) or the one meant, `chunk_size - 72` on both sides. The
  transport results are for the framing meant; the three lemmas `Framing.OverlongWrite...` say what the code's frame
  length leads to: no message is safe, a short one survives exactly if the dragged-along bytes are all pad bytes.
* `trim_padding` has no lower bound; when only pad bytes have arrived the source reads below its buffer, and the model's
  `Receive` returns `None`. `Framing.TrimmingStopsIff` says for which messages that is so.
* A frame that the end of the stream cuts short counts as a whole one in `receive`; its rest is what the buffer happens
  to hold (`junk`), and that can end up in the message.
* `for_each_server` holds the mutex its callback takes again. `Interleaving.dfy` keeps the plain mutex and shows the
  deadlock; the sweep results (`Master.PingWorkers` and everything about `Sweep`) are for a mutex that can be taken
  again by its holder.
* The table's 16-bit counter wraps to zero when an entry is added to 65535 others, and the source then writes in front
  of an empty table. The model's table is empty from there on and the response is `Broken`; results about the registry
  as its history of registrations say that this has not happened. The response is `Broken` as well when an address of
  more than 15 characters is copied into its 16 bytes.
* The source's comment calls `least_load` the worker with least load; the code takes the first entry, and so does the
  model.

## Model

| member | source | states |
|---|---|---|
| Bytes.CStr | src/server/file_exec.c:54 | strlen, strcpy and %s see a NUL-free prefix that ends at the first NUL |
| Bytes.MemCpy | lib/PP/packet.c:24-29 | a copy into a buffer puts the source bytes at the offset and keeps what is before and behind |
| Bytes.LeByte | lib/PP/packet.c:24-28 | an integer is stored with its least significant byte first |
| Bytes.CStrEndsAtZero | src/server/file_exec.c:54 | a C string ends in front of the first zero byte |
| Framing.WireLength | lib/PP/transmission.c:125-147 | a message of n bytes takes floor(n/D)+1 frames and is followed only by pad bytes |
| Framing.TrimMeaning | lib/PP/transmission.c:227-238 | trimming removes exactly the trailing pad bytes |
| Framing.CutMeaning | lib/PP/transmission.c:199-205 | what arrives is all of the message or the shortest run of whole chunks that ends in a pad byte |
| Framing.TakenMeaning | lib/PP/transmission.c:199-205 | the receive loop reads whole frames, none before the last ends in a pad byte, and the last one does unless the stream has no further frame |
| Framing.MissingMeaning | lib/PP/transmission.c:199-213 | unless a frame ends in a pad byte before, the loop reads to the end of the stream and counts a rest as a whole frame |
| Framing.TransportResult | lib/PP/transmission.c:125-220 | receiving the frames of m gives m cut at its first pad-ended chunk and trimmed, and how far the stream is read |
| Framing.RoundTripIffClean | lib/PP/transmission.c:125-244 | a non-empty message comes back unchanged if and only if no full chunk and not the message itself ends in a pad byte |
| Framing.UncleanExamples | lib/PP/transmission.c:199-205 | two concrete messages that do not come back |
| Framing.TrimmingStopsIff | lib/PP/transmission.c:231 | the unbounded trimming loop stops inside the buffer if and only if what arrives holds a non-pad byte |
| Framing.CleanSuppliesStop | lib/PP/transmission.c:213-231 | clean messages supply that byte |
| Framing.StreamIsSelfDelimiting | lib/PP/transmission.c:125-213 | clean messages sent back to back are received in order and nothing behind them is read |
| Framing.ReceiveConsumesOwnFrames | lib/PP/transmission.c:199-213 | a receive reads exactly the floor(n/D)+1 frames of its own message |
| Framing.NoSlack | lib/PP/transmission.c:125-147 | frames that drag nothing along are the frames of the framing meant |
| Framing.SlackedWireLength | lib/PP/transmission.c:125-147 | whatever is dragged along, a message of n bytes takes floor(n/D)+1 frames of the length that is written |
| Framing.OverlongWriteOneFrame | lib/PP/transmission.c:131-136 | with the code's write length a short message survives if and only if the dragged-along bytes are all pad bytes |
| Framing.OverlongWriteCutsToOneChunk | lib/PP/transmission.c:129-147 | and then a message longer than a chunk is cut to its first chunk |
| Framing.OverlongWriteIsNeverSafe | lib/PP/transmission.c:131-147 | for every message some leftovers make the receiver get something else |
| Transmissions.FillBuffer | lib/PP/transmission.c:158-171 | data at the front, pad bytes to the end |
| Transmissions.TrimPadding | lib/PP/transmission.c:227-238 | the trimmed size, none exactly when no byte stops the loop |
| Transmissions.SendFrame | lib/PP/transmission.c:131-136 | one frame: the padded chunk and what the write takes from behind its buffer |
| Transmissions.SendFrames | lib/PP/transmission.c:125-151 | the loop appends exactly the floor(n/D)+1 frames of the message to the connection |
| Transmissions.ReadFrame | lib/PP/transmission.c:199-201 | a read lands behind the frames already read, inside the buffer; one that is cut short is completed by what lies there |
| Transmissions.ReadFrames | lib/PP/transmission.c:194-213 | every read is inside the buffer; the loop stops as `TakenMeaning` says, and the counter, corrected after a failed read, counts the bytes read and the missing rest of a frame cut short |
| Transmissions.WiresAreWholeFrames | lib/PP/transmission.c:136-147 | streams filled by transmit consist of whole frames |
| Transmissions.SlackedWiresAreWholeFrames | lib/PP/transmission.c:136-147 | with the code's frame length as well |
| Transmissions.WholeFramesMissNothing | lib/PP/transmission.c:199-213 | on such streams no frame is cut short, so nothing uninitialised is received |
| Transmissions.Transmission.constructor | lib/PP/transmission.c:37-66 | a fresh instance, in error for a failed connection or a chunk size of at most 72; frames of chunk_size bytes, or 72 less in the framing meant |
| Transmissions.Transmission.Close | lib/PP/transmission.c:70-79 | a closed instance has no data and zero size |
| Transmissions.Transmission.Transmit | lib/PP/transmission.c:97-154 | the lifecycle checks in order; on success the connection gains the frames of chunk_size - 72 data bytes each, as many as the message takes, for either frame length; otherwise nothing |
| Transmissions.Transmission.Receive | lib/PP/transmission.c:174-224 | the lifecycle checks in order, for any stream; on success the data is the trimmed frames and exactly those are consumed; none where trimming leaves the buffer |
| Transmissions.Carry | lib/PP/transmission.c:97-224 | one instance transmits, another receives: it has the message if and only if that is clean, and leaves its buffer exactly when only pad bytes arrive |
| Lifecycle.HealthyIffProper | lib/PP/transmission.c:97-194 | an instance stays usable exactly as long as the calls keep to the protocol, and its flags record them |
| Lifecycle.SucceedsIffProper | lib/PP/transmission.c:97-223 | a call succeeds exactly when all calls up to it were allowed, over every call sequence |
| Lifecycle.AtMostOneOfEach | include/PP/transmission.h:11-13 | at most one transmit and one receive succeed on an instance |
| Lifecycle.UnsuccessfulCallCloses | lib/PP/transmission.c:99-121 | a failing call closes the instance with an error of the stated length, except a first receive at the end of the stream |
| Lifecycle.ErrorAndClosedAbsorb | lib/PP/transmission.c:8-15 | error and closed are absorbing, nothing succeeds after them, and closed means no data |
| Lifecycle.WhyItFails | lib/PP/transmission.c:97-121 | which message a second transmit or receive, one without data, and one on a closed or erroneous instance records |
| Serializers.LayoutTiles | lib/PP/transmission_serializer.c:11-29 | the nine field regions tile 36 + bytes bytes without gap or overlap, inside the allocation |
| Serializers.FieldAt | lib/PP/transmission_serializer.c:12-29 | each field can be read at its own offset whatever trails the image |
| Serializers.Offsets | lib/PP/transmission_serializer.c:12-29 | which bytes of the image hold which field |
| Serializers.Serialize | lib/PP/transmission_serializer.c:9-32 | the copies leave exactly the laid-out image at the front of the buffer |
| Serializers.Deserialize | lib/PP/transmission_serializer.c:35-60 | the copies back read the fields at the offsets the embedded length gives |
| Serializers.RoundTrip | lib/PP/transmission_serializer.c:9-60 | deserializing a serialized transmission, whatever trails it, restores every field |
| Packets.Encode | lib/PP/packet.c:21-32 | the copies build the 22-byte header and the argument |
| Packets.Decode | lib/PP/packet.c:35-48 | the copies read the fields back |
| Packets.FieldOffsets | lib/PP/packet.c:24-29 | which bytes of an encoding hold which field |
| Packets.DecodesIffStartsWithEncoding | lib/PP/packet.c:21-48 | a buffer decodes to a packet if and only if it starts with that packet's encoding |
| Packets.EncodingIsPrefixFree | lib/PP/packet.c:21-32 | no encoding is a prefix of another packet's |
| Packets.PrefixFixesType | src/server/server.c:111 | any 12 bytes or more of an encoding fix the message type |
| Packets.Delivered | src/worker_admin.c:233 | a packet written with excess bytes and read into a large enough buffer decodes to itself |
| Text.IndexOf | src/master.c:211-225 | index of the first occurrence, or -1 when there is none |
| Text.CharAt | src/master.c:211-225 | the loop returns that index |
| Text.RejoinSplit | src/master.c:188-196 | splitting at the first `;` (59) and joining again gives the identical argument |
| Text.SplitJoinedIff | lib/interface.c:95-101 | joining and splitting gives name and data back if and only if the name has no `;`, whatever the data |
| Text.CountRoundTrip | src/worker_admin.c:253-254 | every printed count, -1 included, is parsed back whatever non-digit follows |
| Text.DigitCount | src/master.c:228-233 | exactly which numbers fit a buffer of k characters |
| Text.ShowDigit | src/master.c:228-233 | the k-th character from the right is the k-th decimal digit, a minus sign is in front |
| Text.AtolFront | lib/interface.c:86-87 | white space and a plus sign in front do not matter, what is no number counts as zero |
| Text.MatchIsInOneEntry | src/worker_admin.c:155 | for a non-empty newline-free needle a match in a joined listing lies in a single entry, both ways |
| Text.FileListToStr | src/server/server.c:198-219 | the loop joins the names with newlines |
| Text.JoinBehind | src/server/server.c:204-219 | each name is followed by a newline (10) but for the last |
| Registry.WithoutOwnId | src/server_table.c:22-40 | with unique ids, removing an entry's id removes that entry |
| Registry.RemoveTwice | src/worker_admin.c:104-119 | the second removal in the ping handler is a no-op |
| Registry.SweepRemovesOddRanks | src/server_table.c:57-68 | a sweep removes exactly the 1st, 3rd, 5th entry of every maximal run of failed workers |
| Registry.SweepKeepsLiveAndHalves | src/server_table.c:57-68 | no live worker is lost or moved, and at most half of the failed ones remain |
| Registry.SweepIsSubsequence | src/server_table.c:33-38 | a sweep neither reorders nor invents entries |
| Registry.LongestRunMeaning | src/server_table.c:57-68 | the longest run is attained by some neighbours and by no more |
| Registry.SweepHalvesRuns | src/server_table.c:57-68 | each sweep halves the longest run, rounding down |
| Registry.SweepsDivide | src/worker_admin.c:71-77 | k sweeps divide the longest run by 2^k and leave at most 1/2^k of the failed workers |
| Registry.SweepsSufficeIff | src/worker_admin.c:71-77 | k sweeps leave exactly the live workers if and only if no run of failed workers has 2^k entries |
| Registry.SixteenSweeps | src/server_table.c:6 | sixteen sweeps clear any table the counter can hold; fifteen do not clear a full table of failed workers |
| ServerTables.Table.Add | src/server_table.c:13-19 | the entry is appended; with 65535 entries the counter wraps, the table is empty and the write is outside it |
| ServerTables.Table.IndexOf | src/server_table.c:43-54 | the first entry with the id, or -1 |
| ServerTables.Table.ShiftLeft | src/server_table.c:33-36 | the shifting loop moves everything behind the entry one to the left |
| ServerTables.Table.Remove | src/server_table.c:22-40 | the first entry with the id is gone, the others keep their order |
| ServerTables.Table.GetById | src/server_table.c:71-87 | the first entry with the id, none exactly when there is none |
| ServerTables.Table.GetByIndex | src/server_table.c:90-100 | the entry at the index if there is one |
| ServerTables.Table.GetByPred | src/server_table.c:103-119 | the first entry that satisfies the predicate |
| ServerTables.Table.LeastLoad | src/balance.c:6-12 | the first entry, none for an empty table |
| ServerTables.Table.HandlePingResponse | src/worker_admin.c:99-126 | the worker loses its entry exactly when nothing came back or the four type bytes are not all zero |
| ServerTables.Table.PingServer | src/worker_admin.c:81-95 | and then exactly the visited entry goes |
| Interleavings.InvAlways | src/server_table.c:13-68 | at each point of each interleaving the cells are what the lock holder's position says |
| Interleavings.Linearisable | src/server_table.c:13-40 | with the mutex free the table is the calls applied atomically in lock order; mid-removal a prefix of the tail has moved |
| Interleavings.SelfDeadlock | src/server_table.c:59-68 | once the sweep's callback waits for the mutex its thread holds, nothing changes or completes any more |
| Interleavings.SweepEndsOnlyIf | src/server_table.c:57-68 | a sweep gets stuck only with a failed worker in the table and finishes only with none |
| Interleavings.SweepReachesEnd | src/server_table.c:57-68 | any run with a sweep under way goes on, by that thread alone, to one of these ends: finished if and only if no worker has failed, else stuck |
| Interleavings.DeadlockIsReached | src/server_table.c:57-68 | a run from the empty table that adds a failed worker and sweeps reaches the deadlock |
| RegistryRuns.RegistrationKeepsInvIff | src/server_table.c:6-19 | a registration keeps ids below the counter and the table the surviving registrations if and only if neither the 32-bit id counter nor the 16-bit table counter wraps |
| RegistryRuns.InvAlways | src/master.c:72-102 | over all runs in which neither counter wraps the table is the registrations without the removed ids, ids increasing and below the counter |
| RegistryRuns.RegistryIsOrdered | src/master.c:100-102 | over all those runs ids are strictly increasing, unique and below the counter, and a second removal is a no-op |
| RegistryRuns.LeastLoadIsOldestSurvivor | src/balance.c:6-12 | over all those runs the first entry is the oldest registration not removed |
| Workers.FileName | src/server/file_exec.c:47-55 | the part before the first `;` |
| Workers.Buffer | src/server/file_exec.c:58-65 | the part behind the first `;` |
| Workers.Worker.FsWriteFile | src/fs/fs.c:48-72 | overwrite or append and return the count; appending to a missing file returns -1 and changes nothing |
| Workers.Worker.FsDeleteFile | src/fs/fs.c:34-45 | the file is gone, nothing else changes |
| Workers.Worker.FExec | src/server/file_exec.c:25-44 | each operation flag does its operation on the parsed argument |
| Workers.Worker.WriteFile | src/server/file_exec.c:80-88 | the pair is stored and the printed count returned |
| Workers.Worker.FileList | src/server/file_exec.c:91-117 | every file and the two dot entries, each once |
| Workers.Worker.HandleClient | src/server/server.c:74-161 | what a worker does and writes for the packet in its buffer, whatever lies behind the bytes read; without the token it is silent and changes nothing |
| Workers.Worker.Dispatch | src/server/server.c:95-151 | the token gate, the dispatch and the reply with its written length |
| Answers.StrangersGetNoAnswer | src/server/server.c:95-107 | a packet of any type without the master's token is not answered and changes nothing |
| Answers.ReadIsAnswered | src/server/server.c:162-186 | a READ of an existing file writes 41 bytes and the content, which every reader with room decodes with the next number and the worker token |
| Answers.WriteIsAnswered | src/server/server.c:162-186 | a WRITE stores the data; its length arrives whole in the same way |
| Answers.AppendIsAnswered | src/server/server.c:162-186 | an APPEND to an existing file extends it; the number of bytes added arrives whole |
| Answers.AppendToNothing | src/fs/fs.c:50-53 | an APPEND to a missing file is answered "-1" and changes nothing |
| Answers.DeleteIsAnswered | src/server/server.c:162-186 | a DELETE takes exactly that file; the empty answer arrives whole |
| Answers.ListIsAnswered | src/server/server.c:116-120 | LS writes 40 bytes and the joined names, which arrive whole, without a token |
| Answers.PingReplyBytes | src/server/server.c:109-111 | the 13 bytes of a PING reply: number, length 1, type 0 and one byte more |
| Answers.GoesDownIff | src/server/server.c:122-150 | the authorised requests the worker does not survive |
| StoreRuns.ServeChangesAsAsked | src/server/server.c:95-151 | a packet changes each file exactly as an authorised WRITE, APPEND or DELETE that names it asks |
| StoreRuns.WorkerSurvivesIff | src/server/server.c:95-151 | the packet sequences a worker survives: with the master's token, WRITE and APPEND need a `;`, READ a file that exists by then, and every type an operation |
| StoreRuns.StoreRefinesHistories | src/server/file_exec.c:25-44 | after any packet sequence a worker survives each file is the fold of the authorised changes that name it |
| StoreRuns.StoreStaysText | src/fs/fs.c:68 | contents never hold a NUL, so a later read sees all of them |
| StoreRuns.ReadReturnsHistory | src/server/file_exec.c:68-76 | after such a sequence READ replies with the whole folded content of the file, and runs off a null pointer exactly when there is none |
| StoreRuns.ReadDeliversHistory | src/server/server.c:122-186 | after any survivable packets the bytes of a READ answer decode to the folded content |
| StoreRuns.CountIsWhatWasWritten | src/server/file_exec.c:80-88 | the count a worker answers is the new size after a write and the growth after an append |
| StoreRuns.MissingFile | src/fs/fs.c:34-53 | append to a missing file answers -1, delete of a missing file changes nothing |
| StoreRuns.StrangersChangeNothing | src/server/server.c:95-107 | packets without the master's token never change a file |
| StoreRuns.ServeClients | src/server/server.c:44-68 | the worker's loop over its clients: while it is up every non-empty input was a whole packet and its files are those after these packets; it goes down only over a buffer without a packet or a packet it does not survive |
| Requests.ListingFitsIff | src/worker_admin.c:180 | all listings of a directory are equally long, so whether one fits the read buffer does not depend on its order |
| Requests.ListingMatch | src/worker_admin.c:155 | strstr finds a newline-free name in a joined listing if and only if some entry contains it |
| Requests.VerdictMeaning | src/worker_admin.c:147-160 | the search ends at a containing entry, is lost at a worker without a usable listing, or finds nowhere, by the workers asked so far alone |
| Requests.SearchEnds | src/worker_admin.c:147-160 | one of these three always happens |
| Requests.DeleteTargets | src/worker_admin.c:147-160 | h being the first holder, the file goes from h if and only if h and every worker before answer with listings that fit and none before lists a containing entry; else nothing changes |
| Requests.DeleteMisses | src/worker_admin.c:155 | a concrete pair of workers on which the delete removes nothing, whoever answers |
| Masters.Master.Ping | src/worker_admin.c:90-102 | a worker passes the ping exactly when it answers |
| Masters.Master.PingEntry | src/worker_admin.c:81-95 | the callback takes the visited entry out exactly if that worker does not answer |
| Masters.PingIsAnswered | src/server/server.c:109-111 | the 13-byte reply is recognised as a PING whatever the buffer held |
| Masters.ListingArrivesIff | src/worker_admin.c:180-189 | a listing is decoded whole if and only if it fits the master's buffer; else decoding would leave it |
| Masters.Master.PingWorkers | src/server_table.c:57-68 | the walk over the shrinking table is one sweep of the workers that do not answer |
| Masters.Master.ManagerThread | src/worker_admin.c:67-78 | n rounds are n sweeps; sixteen leave exactly the answering workers |
| Masters.Master.WrittenBytes | src/worker_admin.c:243-258 | the count in the worker's reply, -1 from a worker that times out |
| Masters.Master.WorkerWrite | src/worker_admin.c:215-240 | the pair is stored on the first worker and its length returned, -1 without an answering worker |
| Masters.Master.WorkerLsIndex | src/worker_admin.c:163-190 | this worker's whole listing if it answers and the listing fits, none if it does not, whatever the other workers do; nothing changes |
| Masters.Master.FindByFile | src/worker_admin.c:147-160 | how the search ends, as `Verdict` says of the workers asked: found, nowhere, or lost at a worker without a usable listing |
| Masters.Master.WorkerDelete | src/worker_admin.c:276-294 | the name goes from the worker where the search ends, nothing changes if it is lost or finds none; in any case no other name and no second worker is touched |
| Masters.Master.ExecLong | src/master.c:186-209 | split, forward and print, with the error text when there is no separator |
| Masters.Master.HandleRequest | src/master.c:150-167 | the dispatch on the message type, and for a delete which worker loses the name and when the master gets lost |
| Masters.Master.Register | src/master.c:89-110 | a registration with the worker token appends one entry under the next id; `Broken` when the table counter wraps or the address does not fit |
| Masters.Master.AnswerPacket | src/master.c:83-116 | the availability check, the registration branch and the dispatch |
| Masters.Master.HandleClient | src/master.c:70-119 | what a decoded packet does to registry, counter and stores, and the response; no response to nothing, `Broken` for a buffer without a packet; every registration in full |
| Masters.RegistrationAnswers | src/master.c:83-100 | a registration: no answer for a wrong token; else stored under the next id, `Broken` without a `;`, for a full table or an address beyond 15 bytes |
| Masters.AnswersWithoutWorker | src/master.c:150-209 | the texts answered without workers, for types without an operation and without a `;`, "-1" for an append, and where the source follows null |
| Masters.DeleteAnswer | src/master.c:161-163 | a delete is answered "1" unless its search is lost, and erases where the search ends |
| Masters.SilentWorkerGivesMinusOne | src/worker_admin.c:243-251 | a write that meets a silent first worker is answered "-1" and changes nothing |
| Masters.CountFits | src/master.c:228-233 | counts within the read size need at most 4 characters and survive printing and parsing |
| Clients.ReadAll | lib/interface.c:56-68 | every byte of the stream in order, each read inside the grown buffer, for every length |
| Clients.AtolStopsAtNul | lib/interface.c:86-87 | a count is parsed alike whatever lies behind its terminator in the read buffer |
| Clients.ParseReply | lib/interface.c:86-87 | read_all and atoi give the number of the master's text |
| Clients.Request | lib/interface.c:84 | a client's packet, written longer than its encoding, reaches the master as it is |
| Clients.CountThroughBothHops | lib/interface.c:86-87 | a count passes worker, master and client unchanged if and only if it fits an int |
| Clients.FileWrite | lib/interface.c:71-92 | what a client write does to the stores and returns, for every name: 0 without workers, 2^64 - 1 for an append or a silent first worker |
| Clients.FileDelete | lib/interface.c:104-125 | a client delete removes the name where the master's search ends and returns 1, or 0 without workers; for every name at most there |
| Clients.WriteReachesWorker | lib/interface.c:71-101 | end to end: exactly that file on exactly the first worker, and the data's length back |
| Registrations.ShortTextArrives | src/server/boot.c:50-57 | ip and port are read back from the 40-byte write when the text has at most 18 bytes |
| Registrations.LongTextIsAmbiguous | src/server/boot.c:57 | a longer text shares its 40 bytes with another port's, so leftovers in the buffer decide |
| Registrations.RegistrationRoundTripIff | src/master.c:100-101 | read back for certain if and only if the text has at most 18 bytes |
| Registrations.ReliableIffShortAddress | lib/comm.c:10 | with the system's port that means an address of at most 12 characters |
| Registrations.RegisterWorker | src/server/boot.c:38-62 | a worker's registration adds exactly its own entry under the next id and is not answered; a full table is lost instead |
| Systems.StepKeepsOrdered | src/master.c:70-119 | each step keeps the ids increasing and below the counter, unless a registration makes it wrap |
| Systems.RegistryFollowsHistory | src/master.c:70-119 | the registry of a run is what `RegistryRuns` makes of that run's own registrations and sweeps |
| Systems.EntryWasRegistered | src/master.c:100-102 | every entry of the registry was registered, under that id and location, by an event of the run |
| Systems.RegistryIsSweeps | src/worker_admin.c:71-77 | without registrations and outages the registry of a run is the sweeps made so far |
| Systems.SixteenSweepsOfARun | src/worker_admin.c:71-77 | sixteen sweeps anywhere in such a run leave exactly the answering workers |
| Systems.WriteGoesToOldestSurvivor | src/worker_admin.c:215-232 | in every run a carried-out write goes to a worker that an earlier event registered, and every entry registered before that one is gone from the registry |
| Systems.StepTouches | src/master.c:150-167 | what one step does to one file: a write there sets it, a delete whose search ends there removes it, anything else leaves it |
| Systems.WrittenDataStays | src/master.c:150-167 | written data stays byte for byte through everything but a write of that file there and a delete whose search ends there, over all runs |
| Systems.DeletedFileStaysGone | src/worker_admin.c:276-294 | a file is gone from the worker where the search for it ended until that name is written there again, over all runs |
| Systems.NamesStayText | src/server/file_exec.c:47-55 | file names stay NUL-free over all runs |
| Systems.StoredDataWasWritten | src/server/file_exec.c:80-88 | what a worker holds is the data of the last write of that name that went there, over all runs |
| Serving.React | src/master.c:41-56 | one stimulus takes the system through the event it means: a ping time a sweep, a client the request in its bytes |
| Serving.Serve | src/master.c:41-56 | the master's loops over any stimuli are a run of the machine, each event being what its stimulus means |
| Serving.WholePacketMeans | src/master.c:70-116 | a packet that is sent whole is carried out as that packet, whatever was written behind it or lay in the buffer |
| Serving.SixteenPingTimes | src/worker_admin.c:67-78 | sixteen ping times leave exactly the answering workers, whatever other requests come in between |
| Serving.ServeQuietly | src/worker_admin.c:67-78 | the same of the loops themselves: with sixteen ping times and no registration or outage they leave exactly the answering workers |
| Serving.ClientDeleteStays | src/worker_admin.c:276-294 | a name in a client's delete is gone from the worker where the search ends until a client writes it |
| Serving.ClientWriteStays | src/master.c:150-167 | the data in a client's bytes is on the first worker, byte for byte, until a client writes or deletes that name |

## Left out

- Sockets, timeouts, threads as system objects, `popen`, `mkdir` and `rm`: replaced by a byte queue, a set of answering workers, and a map for the directory.
- File names the file system refuses or the shell splits (empty, with `/`, blanks or shell characters), and failing `fopen`: every name is a key of the map.
- `worker_ls` (LS through the master): it starts from an uninitialised string and prints into its own argument, so the model's master answers `Broken`. Listing one worker, which delete uses, is modelled.
- `worker_read` and `worker_append` in the master: stubs in the source. READ through the master dereferences null (`Broken`), APPEND answers -1; both are modelled in full on the worker.
- The byte loop of `fs_read_file`: reading is a map lookup.
- The worker's answer to a message type without an operation: the source goes on with an unset variable, so the model's worker is `Down`; with it `p_error`, which is used nowhere else.
- `lib/PP/pp.c`: a thin wrapper around transmission.
- The serialized copy that `transmit` makes of every frame and throws away.
- Unlocked reads of the table by the client thread (`getfs_index`, `table_count`): requests and sweeps are single steps in System.dfy, table accesses are single steps only inside Interleaving.dfy.
- Text.FileListToStr: starts from an empty string; the source appends to one byte of uninitialised memory (src/server/server.c:203-208), so its listing, and the delete that searches it, rest on that byte being zero.
- ServerTables.Table.HandlePingResponse: reads only the type; the source decodes the whole packet, also from the unfilled buffer of a failed ping, where the argument length is arbitrary (src/worker_admin.c:115).
- Masters.Master.Register: what the copy of an address of more than 15 characters overwrites (src/master.c:100-101).
- Memory hygiene: leaks, missing terminators and one-byte overruns of allocations; sizes are below 2^32.
- Logger, argument parsing, settings file and command line output.
- Transmissions.Transmission.Receive: a read delivers less than a frame only at the end of the stream; a frame that arrives in pieces before that is not modelled.
- Framing.RoundTripIffClean: is about the frame width meant on both sides, because the code's write length makes every round trip depend on memory it does not own.
- Clients.ReadAll: only the last read may be short, as the source assumes.
- Masters.Master.WrittenBytes: a worker that refuses the connection is not modelled; there the source goes on with descriptor 0 (lib/comm.c:16-20, 69-70) and would read standard input.
- Masters.Master.FindByFile: for a name with a newline, which can match across two entries, the result depends on the order of a listing and is left open; so it is for directories whose listing takes 2^32 bytes or more.
- Masters.Master.WorkerDelete: in those two cases only that at most one worker loses the file of that name, and nothing else changes.
- Clients.FileDelete: the same; and what the client receives when the master follows a null pointer.
- ServerTables.Table.Add: what the write in front of the empty table does at the wrap of the 16-bit counter.
- RegistryRuns.InvAlways: runs in which a counter wraps; `RegistrationKeepsInvIff` says that the invariant fails exactly there.
- Serving.Serve: the id counter plus the number of clients stays below 2^32.
- Systems.RegistryFollowsHistory: no registration of the run makes the id counter wrap.
