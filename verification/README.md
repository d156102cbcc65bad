# A verified model of vsftpd's hard parts

vsftpd 2.3.5, here extended by an update generator for modpacks, is an FTP server that splits every
session over several processes and does all its text handling with a home-grown string library. This
project models the parts of it that are hard to get right and proves what they do, for all inputs, all
runs and all interleavings:

- the **filename matcher** (`FilenameFilter`): its greedy loop is related to a declarative glob relation,
  with soundness for every filter, the exact cost of a decision, and the exact condition under which a
  filter of text and stars, or with a single star, is matched exactly;
- the **hash table** (`Hash`) and the **listener's accounting** (`Listener`): linked nodes that refine a
  map, and three records that agree over every run of connections, failed forks and reaped children;
- the **processes of a session**: what travels over the sockets byte by byte (`PrivSock`), a protocol
  machine in which the two sides and the bytes between them are interleaved in every way (`Lockstep`), its
  instances for the privileged parent (`PrivParent`, `TwoProcess`) and the SSL slave (`SslSlave`), the log
  (`Logging`), and the session that uses all of them (`Session`);
- the **streaming transforms**: ASCII conversion in both directions (`Ascii`, section 3.1.1.1 of RFC 959),
  the peeking line reader (`NetStr`) and reply escaping (`Reply`, section 4.2 of RFC 959), each shown not
  to depend on how the stream is cut;
- the **update generator** (`UpdateChanges`, `McUpdate`) on top of the text operations of `str.c` (`Text`,
  `StrBuf`);
- the **bandwidth limit** (`RateLimit`) over reals and the **IPv6 parser** (`Ipv6`, section 2.2 of
  RFC 4291).

Code that works by changing things is modelled by methods, arrays and classes with frames, each proved
against a function or a state machine whose own properties are proved beside it. The outcomes of system
calls, the contents of files and the behaviour of clients are parameters or are left open (`*`). Where the
program gives up because it meets a state it takes for impossible, the model returns that trap as an
outcome (`Exits`), and the proofs say which traps can be reached and when.

`PrivSock`, `Lockstep` and the request loops fit together as follows. `Lockstep` shows that for a protocol
in which every command can be answered, each side receives exactly what the other sent, in every
interleaving, and comes back to an empty wire; and that every run, however interleaved, is a sequence of
calls that both sides see alike (`RunIsCalls`). `ParentIsCalled`, `LoginIsCalled` and `SlaveIsCalled` apply
this to the protocols of a session, whose handlers are shown to give only answers of their protocol and
whose askers make only requests of it. So `Session` may treat a request and its answer as one step.

Some findings, each a theorem below:

- `*aa` rejects `aaa`, `*?` rejects `ab`, and `*a?` rejects `aa`. A filter `p*t` with ordinary text `p` and no further `*` in
  `t` is matched exactly, if `t` is ordinary text, if and only if no proper prefix of `t` is also its suffix;
  if `t` begins with a token, if and only if `t` describes nothing at all; and if `t` is text and then a
  token, if and only if what follows the text stays described when the scan has gone as far as it can,
  wherever an overlapping occurrence of the text made it start.
- Of the filters made of ordinary text and stars, those with two texts or more between stars are never
  matched exactly: the second text is looked for only behind the last occurrence of the first, so `*a*b*`
  rejects `aba`. With one such text, `*a*b` is exact if and only if `b` has no border and no occurrence of
  `a` can end inside `b`.
- An IPv6 text is accepted but yields fewer than 16 bytes exactly if nothing follows a `::` in it and there
  are fewer than eight groups: `1::` is such a text, and so is `1`.
- A manual change damages other lines exactly if the instruction it replaces stands inside one of them, or
  an instruction it removes ends one of them; where it only appends a line, nothing can be damaged.
- `str_reserve` with less room than the contents need overwrites a character of the contents.
- A listing of a directory that cannot be read is empty and reported as a success.
- `SITE UINS` does not look whether it got a data connection; without one the session always ends.
- After `EPSV ALL` the server refuses `PASV` and `PORT` but still takes `EPRT`, although section 4 of
  RFC 2428 asks it to refuse everything but `EPSV`.
- With `async_abor_enable`, an upload that `ABOR` cuts short is logged as a success while the client is told
  that it failed. The log's successes are the transfers reported to clients as complete and exactly these
  uploads.
- With `async_abor_enable` and an encrypted control connection, the handler that reads the `ABOR` makes a
  request of the SSL slave, possibly inside another one. It gets its own answer if and only if the other
  request has not begun or has been read to its end; otherwise the two are out of step. Inside a read, the
  handler takes the length of the data for its count and the first four bytes of the data for the length
  of its text.
- A rate of 2^32 bytes per second or more is converted to an integer with an undefined result, and may
  then pass unnoticed.
- With `port_promiscuous` a reserved port is accepted by `PORT` and then ends the session.
- `port_active` and `pasv_active` call each other; with both active they would never return, so the trap
  each holds for that case cannot be reached.

## Model

| member | source | states |
|---|---|---|
| `FilenameFilter.Sound` | vsftpd-2.3.5/ls.c:221-387 | for every name and filter, what the greedy matcher accepts is described by the filter (`*` any text, `?` one character, closed braces expanded textually, an unclosed brace literal) |
| `FilenameFilter.SoundAtToken` | vsftpd-2.3.5/ls.c:315-366 | the same from a token on, through the brace recursion |
| `FilenameFilter.ScanFindsSuffix` | vsftpd-2.3.5/ls.c:291-309 | the forward scan finds a borderless suffix although it skips overlapping occurrences |
| `FilenameFilter.ScanSplits` | vsftpd-2.3.5/ls.c:291-313 | what the scan leaves over follows directly behind an occurrence |
| `FilenameFilter.Complete` | vsftpd-2.3.5/ls.c:221-387 | on tame filters (no `*`, or one `*` followed by borderless text) nothing that the filter describes is rejected |
| `FilenameFilter.CompleteAtToken` | vsftpd-2.3.5/ls.c:315-366 | the same from a token on |
| `FilenameFilter.StarTextExact` | vsftpd-2.3.5/ls.c:291-313 | `*text` is matched exactly on all names if and only if `text` has no border |
| `FilenameFilter.OverlappedName` | vsftpd-2.3.5/ls.c:291-313 | for every text with a border, a name that is described but rejected |
| `FilenameFilter.StarFreeBound` | vsftpd-2.3.5/ls.c:315-361 | a filter without `*` describes no name longer than itself |
| `FilenameFilter.RejectedName` | vsftpd-2.3.5/ls.c:315-366 | for every `t` that begins with a token, has no `*` and describes anything, a name that `*t` describes and the matcher rejects |
| `FilenameFilter.StarTokenExact` | vsftpd-2.3.5/ls.c:315-366 | so `*t` is exact if and only if `t` describes nothing |
| `FilenameFilter.ScanPasses` | vsftpd-2.3.5/ls.c:291-313 | the scan passes any given occurrence of a text, or one that overlaps it from the left, and then goes on from the end of that one |
| `FilenameFilter.ScanFromPeriod` | vsftpd-2.3.5/ls.c:291-313 | and each such overlap arises for some name |
| `FilenameFilter.ScanVisits` | vsftpd-2.3.5/ls.c:291-313 | the scan visits every occurrence of a text without border |
| `FilenameFilter.StarTextTokenExact` | vsftpd-2.3.5/ls.c:274-366 | `*` with any text and then a token is exact if and only if what follows the text is closed under the scan, from every overlap |
| `FilenameFilter.RejectedExamples` | vsftpd-2.3.5/ls.c:274-366 | `*aa` rejects `aaa`, `*?` rejects `ab` and `*a?` rejects `aa`, which they describe |
| `FilenameFilter.OneStarExact` | vsftpd-2.3.5/ls.c:251-378 | the exact condition for every `p*t` with ordinary text `p` in front and no `*` in `t` |
| `FilenameFilter.TextBetweenStars` | vsftpd-2.3.5/ls.c:274-366 | a text between two stars is accepted if and only if it occurs and the rest of the filter accepts what the scan leaves behind it |
| `FilenameFilter.StarsDecided` | vsftpd-2.3.5/ls.c:251-378 | for any number of stars with ordinary text between them, whatever follows the last one: a name is accepted if and only if each text occurs in what the scan for the one before leaves over, and the rest of the filter accepts what is left in the end |
| `FilenameFilter.StarsMean` | vsftpd-2.3.5/ls.c:251-378 | such a filter describes a name if and only if the texts occur in it one behind the other and the rest of the filter describes what follows |
| `FilenameFilter.OneTextExact` | vsftpd-2.3.5/ls.c:251-378 | `*text*` is matched exactly: a name is accepted if and only if the text occurs in it |
| `FilenameFilter.SecondTextMissed` | vsftpd-2.3.5/ls.c:291-313 | with two or more texts between stars, a name that is described and rejected, for every such filter |
| `FilenameFilter.SecondTextExample` | vsftpd-2.3.5/ls.c:291-313 | `*a*b*` rejects `aba` |
| `FilenameFilter.ScanSpares` | vsftpd-2.3.5/ls.c:291-313 | the scan for a text spares the text at the end of a name unless it can reach into it |
| `FilenameFilter.TwoTextsExact` | vsftpd-2.3.5/ls.c:251-378 | `*a*b` is matched exactly on all names if and only if `b` has no border and no occurrence of `a` can end inside `b` |
| `FilenameFilter.StarStar` | vsftpd-2.3.5/ls.c:364-366 | two stars together are one |
| `FilenameFilter.StarsExact` | vsftpd-2.3.5/ls.c:251-378 | the exact condition for every filter of ordinary text and stars: at most one text has stars on both sides, the text at the end has no border, and the one before cannot reach into it |
| `FilenameFilter.AlternativesOfJoin` | vsftpd-2.3.5/ls.c:325-350 | a comma-separated list of non-empty alternatives is taken apart completely and in order |
| `FilenameFilter.AlternativesStop` | vsftpd-2.3.5/ls.c:325-350 | whatever follows an empty alternative is not looked at |
| `FilenameFilter.CostBound` | vsftpd-2.3.5/ls.c:251-378 | a filter without braces costs at most its length |
| `FilenameFilter.LastOccurrence` | vsftpd-2.3.5/ls.c:291-309 | the inner loop ends where the repeated search ends |
| `FilenameFilter.MatchText` | vsftpd-2.3.5/ls.c:274-314 | the text before a token is matched here, or after a `*` anywhere |
| `FilenameFilter.TakeToken` | vsftpd-2.3.5/ls.c:253-366 | one round leaves a shorter filter with the same verdict, and counts one |
| `FilenameFilter.MatchTokens` | vsftpd-2.3.5/ls.c:251-378 | the counter ends at what it was plus the cost of the filter, but never above 1000; a used-up counter means no match, otherwise the verdict is the greedy one |
| `FilenameFilter.TryAlternatives` | vsftpd-2.3.5/ls.c:325-350 | the alternatives up to the first empty one are tried with the shared counter, which ends at their cost; some alternative matches if and only if the result says so |
| `FilenameFilter.PassesFilter` | vsftpd-2.3.5/ls.c:221-387 | a match is a glob match; the counter ends exactly at the cost of the filter, cut at 1000; within it the verdict is the greedy one, so exact on tame filters; a filter without braces and shorter than what is left of the counter is always decided |
| `Hash.Bucket.FindNode` | vsftpd-2.3.5/hash.c:131-146 | finds the node of the key, or null exactly if the key is absent |
| `Hash.Bucket.LinkFirst` | vsftpd-2.3.5/hash.c:63-90 | prev and next links still mirror each other after a node is put in front |
| `Hash.Bucket.Unlink` | vsftpd-2.3.5/hash.c:92-118 | and after a node is taken out of any place of the chain |
| `Hash.HashTable.Lookup` | vsftpd-2.3.5/hash.c:51-60 | agrees with the map the table refines |
| `Hash.HashTable.Add` | vsftpd-2.3.5/hash.c:62-90 | adds one entry to the map and keeps links, buckets and unique keys |
| `Hash.HashTable.Free` | vsftpd-2.3.5/hash.c:92-118 | removes exactly that entry and keeps links, buckets and unique keys |
| `Hash.HashTable.Store` | vsftpd-2.3.5/standalone.c:239-240 | a write through the cell handed out by a lookup updates exactly that entry |
| `Hash.HashTable.constructor` | vsftpd-2.3.5/hash.c:35-49 | an empty table is a valid one, with an empty map |
| `Listener.ComputeXorWords` | vsftpd-2.3.5/standalone.c:278-295 | the loop over bytes with its moving shift gives the exclusive or of the address taken as big-endian 32-bit words, the last one filled up with zeros |
| `Listener.XorWordsMore` | vsftpd-2.3.5/standalone.c:285-293 | one more byte of an address changes that value at the place of the byte in its word |
| `Listener.ConnectionAgrees` | vsftpd-2.3.5/standalone.c:161-188 | a counted connection with its new child keeps total, counts and pids in agreement |
| `Listener.ReapAgrees` | vsftpd-2.3.5/standalone.c:247-267 | so does a reaped child, whose address is present with a positive count, so neither trap of the drop fires |
| `Listener.CountersBounded` | vsftpd-2.3.5/standalone.c:304-322 | the 32-bit counters cannot overflow |
| `Listener.CountedDropped` | vsftpd-2.3.5/standalone.c:189-194 | counting and dropping after a failed fork restores the table |
| `Listener.AfterRun` | vsftpd-2.3.5/standalone.c:149-267 | the three records agree after every run |
| `Listener.RunConserves` | vsftpd-2.3.5/standalone.c:149-267 | over every run the total is the children started less the children finished |
| `Listener.Listener.HandleIpCount` | vsftpd-2.3.5/standalone.c:304-322 | counts one more session of an address and returns the new count |
| `Listener.Listener.DropIpCount` | vsftpd-2.3.5/standalone.c:224-245 | counts one less, forgetting the address at zero |
| `Listener.Listener.AcceptOne` | vsftpd-2.3.5/standalone.c:161-195 | a connection moves the records as the state machine says; the child is told the number of live children and of those from its address |
| `Listener.Listener.ReapOne` | vsftpd-2.3.5/standalone.c:257-264 | a reaped child is removed from all three records |
| `Listener.Listener.ReapChildren` | vsftpd-2.3.5/standalone.c:247-267 | the reap loop is the run of its reaps |
| `Listener.Listener.Serve` | vsftpd-2.3.5/standalone.c:149-267 | over any possible run of events no trap is reached and the records agree |
| `PrivSock.IntRoundTrip` | vsftpd-2.3.5/privsock.c:193-213 | an int survives its four bytes |
| `PrivSock.DecodePrefix` | vsftpd-2.3.5/privsock.c:77-213 | however much of an item has arrived, its receiver waits, then gets exactly what was sent and leaves the rest; it never gives up |
| `PrivSock.DecodeConsumes` | vsftpd-2.3.5/privsock.c:77-213 | a receiver takes off exactly as many bytes as the item it gets takes up |
| `Lockstep.StepKeepsInStep` | vsftpd-2.3.5/privsock.c:77-213 | every step of either process, and every byte written, keeps the two in step |
| `Lockstep.RunsInStep` | vsftpd-2.3.5/twoprocess.c:169-306 | every state of every run, in every interleaving, is in step |
| `Lockstep.BoundaryClean` | vsftpd-2.3.5/postprivparent.c:45-79 | both directions are empty whenever the asker is between requests |
| `Lockstep.NeverTrapped` | vsftpd-2.3.5/privsock.c:128-169 | neither side ever receives a broken item or an unknown command |
| `Lockstep.NoDeadlock` | vsftpd-2.3.5/twoprocess.c:207-280 | a request under way can always go on: neither side waits for something that will not come |
| `Lockstep.WriterMeetsReader` | vsftpd-2.3.5/twoprocess.c:207-280 | while one side has something to send, the other is waiting to receive, so a small wire blocks nobody for good |
| `Lockstep.RequestAdvances` | vsftpd-2.3.5/twoprocess.c:207-280 | each step brings the end of the request nearer, whatever the interleaving |
| `Lockstep.Faithful` | vsftpd-2.3.5/postprivparent.c:45-173 | the answerer acts on exactly the request that was sent, the asker ends with exactly the answer that was given |
| `Lockstep.RunIsCalls` | vsftpd-2.3.5/postprivparent.c:34-79 | in every state of every run the answerer has answered, in order, exactly the requests that the asker made, and the asker has those answers, save perhaps one on its way |
| `Lockstep.ReadsOwnExact` | vsftpd-2.3.5/privsock.c:128-169 | with something of an earlier answer still on the wire, a reader gets its own answer and leaves its own rest if and only if that something is nothing |
| `Lockstep.NotBegun` | vsftpd-2.3.5/privsock.c:77-85 | a request of which no byte is written yet has left no trace |
| `Lockstep.NestedRequestExact` | vsftpd-2.3.5/sysutil.c:149-177 | in every state of every run, a request made inside another is harmless if and only if the other has not begun or has been read to its end |
| `PrivParent.PostLoginResponsive` | vsftpd-2.3.5/postprivparent.c:45-173 | the post-login protocol is one that runs in step |
| `PrivParent.LoginResponsive` | vsftpd-2.3.5/twoprocess.c:282-359 | each command of the login protocol can be answered |
| `PrivParent.ParentIsCalled` | vsftpd-2.3.5/postprivparent.c:34-79 | child and parent see the same sequence of requests and answers in every interleaving |
| `PrivParent.LoginIsCalled` | vsftpd-2.3.5/twoprocess.c:169-205 | so do they before login |
| `PrivParent.ProcessLogin` | vsftpd-2.3.5/twoprocess.c:282-359 | the answer is one of the login protocol, BAD exactly for a refusal; another command is the only trap; the SSL flags are the child's, or off with SSL disabled |
| `PrivParent.ProperFits` | vsftpd-2.3.5/twoprocess.c:207-280 | what the child sends is always a request of the protocol |
| `PrivParent.PortInRange` | vsftpd-2.3.5/privops.c:148-154 | scaling two random bytes always gives a port of the configured range |
| `PrivParent.ScaledPortExact` | vsftpd-2.3.5/privops.c:148-154 | and each port of the range gets its share of the random numbers, in order |
| `PrivParent.Parent.Listen` | vsftpd-2.3.5/privops.c:115-179 | the port handed out is the one that was bound, at the first of nine random tries that did not find its port in use; none exactly if that try was refused or all nine were in use; a descriptor still held would be lost |
| `PrivParent.Parent.Accept` | vsftpd-2.3.5/privops.c:181-209 | hands out the accepted connection exactly if there is one and it comes from the client's address or any address will do, and otherwise -1 or -2 |
| `PrivParent.Parent.GetFtpPortSock` | vsftpd-2.3.5/privops.c:34-93 | ends the process exactly for a reserved port or if the local end cannot be bound in two tries; otherwise the connection to that port, or -1 |
| `PrivParent.Parent.ProcessGetDataSock` | vsftpd-2.3.5/postprivparent.c:124-137 | the answer to a port after its cut to 16 bits: OK with the connection to it, BAD without one, and the two ways to end |
| `PrivParent.Parent.ProcessPasvListen` | vsftpd-2.3.5/postprivparent.c:153-158 | answers with the port that was bound, or ends if there was none |
| `PrivParent.Parent.ProcessPasvAccept` | vsftpd-2.3.5/postprivparent.c:160-173 | always answers, OK with the connection or BAD with the reason |
| `PrivParent.Parent.ProcessRequest` | vsftpd-2.3.5/postprivparent.c:45-173 | for each command the exact answer and what it does to the listening descriptor; a trap exactly for an unknown command or a reserved port |
| `TwoProcess.Ask` | vsftpd-2.3.5/twoprocess.c:207-280 | how each request ends and what is answered; a trap exactly if the request is not one the parent accepts |
| `TwoProcess.CanAsk` | vsftpd-2.3.5/twoprocess.c:207-280 | between requests every proper request can be made in the protocol |
| `TwoProcess.GetPrivDataSock` | vsftpd-2.3.5/twoprocess.c:207-224 | the connection to that port or -1; a trap exactly for a reserved port |
| `TwoProcess.PasvCleanup` | vsftpd-2.3.5/twoprocess.c:226-236 | the parent listens no more |
| `TwoProcess.PasvActive` | vsftpd-2.3.5/twoprocess.c:238-243 | the child learns whether the parent listens |
| `TwoProcess.PasvListen` | vsftpd-2.3.5/twoprocess.c:245-250 | the child learns exactly the port that was bound, and the session ends exactly if there was none |
| `TwoProcess.GetPasvFd` | vsftpd-2.3.5/twoprocess.c:252-267 | the accepted descriptor, -1 or -2, and never an unexpected result |
| `TwoProcess.ChownUpload` | vsftpd-2.3.5/twoprocess.c:269-280 | a trap exactly if uploads are not chowned, an end exactly if the chown fails |
| `SslSlave.SlaveResponsive` | vsftpd-2.3.5/sslslave.c:32-110 | the slave protocol is one that runs in step |
| `SslSlave.SlaveIsCalled` | vsftpd-2.3.5/sslslave.c:32-110 | slave and protocol process see the same sequence of requests and answers in every interleaving |
| `SslSlave.NestedInSlave` | vsftpd-2.3.5/postlogin.c:1374-1398 | so it is for the requests that the handler of SIGURG makes of the slave |
| `SslSlave.MisreadInside` | vsftpd-2.3.5/readwrite.c:79-91 | a line asked for between the count and the data of a read gets the length of the data for its count, then reads the first four bytes of the data as a length: too big unless they spell at most 131072, and with fewer than four it waits |
| `SslSlave.LettersTooBig` | vsftpd-2.3.5/privsock.c:152-159 | four letters of data are too big a length |
| `SslSlave.Slave.Serve` | vsftpd-2.3.5/sslslave.c:32-110 | a descriptor is held exactly while there is an SSL object, only handshake and close change that, and the answer to each request is exactly what the network and SSL make of it; "state not clean" is met exactly by a handshake while one is held |
| `SslSlave.Slave.Handshake` | vsftpd-2.3.5/sslslave.c:52-71 | after OK this descriptor is held with its SSL object, after BAD neither, and which of the two is up to SSL |
| `SslSlave.Slave.Close` | vsftpd-2.3.5/sslslave.c:87-105 | both are clear afterwards; BAD exactly after an unclean shutdown of an SSL object |
| `SslSlave.Slave.Read` | vsftpd-2.3.5/sslslave.c:72-78 | what was read, at most 65536 bytes, with its count, or -1 and nothing |
| `SslSlave.Slave.GetUserCmd` | vsftpd-2.3.5/sslslave.c:36-45 | the line with its count, or only -1 |
| `Logging.BalancedMeans` | vsftpd-2.3.5/logging.c:72-120 | in a balanced history each started entry is closed once, before the next one, and each close has its start |
| `Logging.Log.StartEntry` | vsftpd-2.3.5/logging.c:72-89 | opens an entry; the trap is met exactly if one is open |
| `Logging.Log.ClearEntry` | vsftpd-2.3.5/logging.c:108-112 | drops the open entry and keeps the history balanced |
| `Logging.Log.DoLog` | vsftpd-2.3.5/logging.c:114-120 | writes the open entry and keeps the history balanced |
| `Session.ChunkSize` | vsftpd-2.3.5/ftpdataio.c:633-647 | between 4096 and 65536, and 65536 exactly if the setting is absent or not smaller |
| `Session.BothActiveDiverges` | vsftpd-2.3.5/postlogin.c:500-535 | with PORT and PASV both active the two checks call each other without end |
| `Session.CallsReturn` | vsftpd-2.3.5/postlogin.c:500-535 | they return, without a trap, if and only if not both are active |
| `Session.Session.PortActive` | vsftpd-2.3.5/postlogin.c:500-513 | terminates and tells whether PORT is active, given that not both are |
| `Session.Session.PasvActive` | vsftpd-2.3.5/postlogin.c:515-535 | the same for PASV |
| `Session.Session.CmdWrite` | vsftpd-2.3.5/ftpcmdio.c:114-152 | the client is told this code last, or the session is over; on a steady connection only a nested request ends it |
| `Session.Session.GetCommand` | vsftpd-2.3.5/ftpcmdio.c:167-208 | reading a command leaves the data connection alone, and on a steady connection always succeeds |
| `Session.Session.Inside` | vsftpd-2.3.5/sysutil.c:149-177 | a handler can come between a request to the slave and its answer only with async_abor_enable, an encrypted control connection and an open data connection |
| `Session.Session.HandleSigurg` | vsftpd-2.3.5/postlogin.c:1361-1402 | notes ABOR exactly if a data connection is open, and makes requests of the slave only then and with an encrypted control connection |
| `Session.Session.Interrupt` | vsftpd-2.3.5/sysutil.c:149-177 | where signals are served between requests, ABOR is noted exactly if async_abor_enable is set and it came; requests of the slave are made only where they could be nested |
| `Session.Session.InstallIoHandler` | vsftpd-2.3.5/sysutil.c:325-334 | the double-register trap is met exactly if a handler is installed |
| `Session.Session.UninstallIoHandler` | vsftpd-2.3.5/sysutil.c:336-345 | the missing-handler trap is met exactly if none is |
| `Session.Session.InitDataSockParams` | vsftpd-2.3.5/ftpdataio.c:215-234 | the descriptor-present trap is met exactly if there is one |
| `Session.Session.GetPasvFd` | vsftpd-2.3.5/ftpdataio.c:97-123 | the accepted connection with its handler, or no trace of one and 425 told |
| `Session.Session.GetPortFd` | vsftpd-2.3.5/ftpdataio.c:125-145 | the connection to the port of PORT, or no trace of one and 425 told; ends exactly for a reserved port or if the local end cannot be bound |
| `Session.Session.PostMarkConnect` | vsftpd-2.3.5/ftpdataio.c:147-183 | a handshake always meets a clean slave; it succeeds exactly if SSL accepts, with the SSL object where the transfer will look for it; otherwise 522 is told |
| `Session.Session.DisposeTransferFd` | vsftpd-2.3.5/ftpdataio.c:55-95 | descriptor, handler and SSL object are gone here and in the slave, reported as failed exactly if an SSL object was shut down uncleanly; "no data descriptor" is met exactly if there was no connection |
| `Session.Session.WriteData` | vsftpd-2.3.5/readwrite.c:32-59 | reports exactly whether the text was taken; a text too long for the slave is met exactly if it is; a write without an SSL object always ends in a trap |
| `Session.Session.ReadData` | vsftpd-2.3.5/readwrite.c:79-100 | a failure, nothing or something exactly as it arrived, and no more than fits; "recv_len bigger than buffer" is met only through the slave with less than a full buffer, and then always |
| `Session.Session.FileRecv` | vsftpd-2.3.5/ftpdataio.c:578-631 | the result, and whether ABOR was noted before the end, are those of the events, plain or through the slave; its traps are a nested request and a piece larger than the buffer, the latter exactly if one comes before the end |
| `Session.Session.FileSend` | vsftpd-2.3.5/ftpdataio.c:453-521 | the result is that of the events; each write is at most twice a buffer, and the only trap is a nested request |
| `Session.Session.DataTransferChecksOk` | vsftpd-2.3.5/postlogin.c:1966-1983 | lets a transfer through exactly with PORT or PASV active and encryption where it is forced, and tells the client why not otherwise |
| `Session.Session.GetRemoteTransferFd` | vsftpd-2.3.5/postlogin.c:1404-1432 | a usable connection exactly if the network and SSL let it come about, and otherwise no trace of one; which reply came last; "neither active" and the reserved port are met exactly under their conditions, a failed bind or handshake ends the session, and on steady connections nothing else does but a nested request |
| `Session.Session.Secure` | vsftpd-2.3.5/postlogin.c:1417-1431 | 150 is told and the handshake made; a connection whose handshake fails is given up without a trace and 522 told |
| `Session.Session.HandlePasv` | vsftpd-2.3.5/postlogin.c:556-635 | the port told is the one the parent has bound, with no descriptor held before and none lost, and PORT is forgotten; the network-protocol argument and `ALL` decide when (section 3 of RFC 2428); the session ends if there is no port or no address to tell, and on a steady connection only then |
| `Session.Session.HandlePort` | vsftpd-2.3.5/postlogin.c:951-988 | PASV is ended; the port is taken exactly if address and port are admitted, and the client told so |
| `Session.Session.HandleEprt` | vsftpd-2.3.5/postlogin.c:1757-1839 | the same for EPRT (section 2 of RFC 2428), also after EPSV ALL |
| `Session.Session.SetUp` | vsftpd-2.3.5/postlogin.c:206-249 | after EPSV ALL, PASV and PORT leave both endpoints as they were, while EPSV and EPRT do exactly what they do without it; the reply of each case; no trap, and the boundary is kept |
| `Session.PasvNumbersMean` | vsftpd-2.3.5/postlogin.c:617-632 | the two numbers by which PASV tells a port stand for that port |
| `Session.Session.PasvCleanup` | vsftpd-2.3.5/postlogin.c:537-548 | afterwards nothing is listened on |
| `Session.EprtAfterEpsvAll` | vsftpd-2.3.5/postlogin.c:324-328 | EPSV ALL followed by an admitted EPRT leaves the port of EPRT set, with a positive reply |
| `Session.Session.Transfer` | vsftpd-2.3.5/postlogin.c:731-744 | connect, transfer, close leaves no trace of a connection; whether it connected and the result are those of the network, SSL and the events, a failed close spoiling a success; exactly when it can be survived, and which traps it can end in |
| `Session.Session.Move` | vsftpd-2.3.5/postlogin.c:737-744 | transfer over an open connection and close it: the result is that of the events, spoiled by a failed close, and nothing of the connection is left |
| `Session.Session.OpenForDownload` | vsftpd-2.3.5/postlogin.c:662-703 | ready exactly if the file opens, is regular and readable; the entry is dropped exactly for a directory, and otherwise stays open |
| `Session.Session.Deliver` | vsftpd-2.3.5/postlogin.c:731-773 | the open entry is written as a success exactly if the transfer connected and ended with result 0, and otherwise left open; the last reply is the one for that outcome, save the confirmation of an ABOR; an upload cut by ABOR is counted; PORT and PASV are spent |
| `Session.Session.Report` | vsftpd-2.3.5/postlogin.c:1119-1141 | success is logged exactly if there was no error; the client is told so exactly if, for an upload, ABOR was not received either; the code of the last reply |
| `Session.Session.CheckAbor` | vsftpd-2.3.5/postlogin.c:1434-1443 | afterwards no ABOR is noted any more |
| `Session.AbortedUpload` | vsftpd-2.3.5/postlogin.c:1109-1136 | data, then ABOR, then an empty read: the receive loop ends without an error, the upload is logged as a success and not reported as complete |
| `Session.Session.HandleRetr` | vsftpd-2.3.5/postlogin.c:637-776 | exactly one download entry if the checks pass, dropped for a directory and otherwise written as a success exactly if the file was sent and the connection closed well; the last reply; the restart position is reset; PORT or PASV is spent if a connection was asked for and kept otherwise; exactly when the session does not survive it |
| `Session.Session.RetrFile` | vsftpd-2.3.5/postlogin.c:656-773 | the part behind the checks: the entry, the file and the transfer |
| `Session.Session.HandleUpload` | vsftpd-2.3.5/postlogin.c:996-1150 | the same for uploads, where the chown of an anonymous upload is asked for only where the parent knows it |
| `Session.Session.StoreFile` | vsftpd-2.3.5/postlogin.c:1017-1146 | the part behind the checks: the entry, the new file, its owner and the transfer |
| `Session.Session.HandleDir` | vsftpd-2.3.5/postlogin.c:784-926 | the same for listings, without an entry; of a directory that cannot be read an empty listing is sent and called a success |
| `Session.Session.List` | vsftpd-2.3.5/postlogin.c:869-922 | the listing over a data connection |
| `Session.Session.HandleSiteUins` | vsftpd-2.3.5/postlogin.c:1610-1676 | exactly one entry if it may begin, a success exactly if the instructions were found, taken and the connection closed well; the reply; PORT and PASV are not spent; it cannot be survived without a connection |
| `Session.Session.SendInstructions` | vsftpd-2.3.5/postlogin.c:1661-1675 | without a connection the session always ends; with one, only a text too long for the slave or a nested request is a trap; entry and reply are those of the outcome |
| `Session.Session.ConnectAndSend` | vsftpd-2.3.5/postlogin.c:1659-1675 | connect and send without a look at the connection: exactly when this cannot be survived, and its traps |
| `Session.Session.HandleFileOperation` | vsftpd-2.3.5/postlogin.c:1152-1239 | exactly one entry of the command's kind, unless SITE CHMOD lacks an argument; a success exactly if allowed and done; the reply; no trap |
| `Session.Session.HandleRnfr` | vsftpd-2.3.5/postlogin.c:1257-1288 | the name is kept exactly if no entry is opened; the reply |
| `Session.Session.HandleRnto` | vsftpd-2.3.5/postlogin.c:1290-1330 | without RNFR nothing is logged; with it one entry, a success exactly if allowed and done, and the name is used up unless the new one is not allowed |
| `Session.Session.Adjust` | vsftpd-2.3.5/ssl.c:215-242 | TYPE, REST and PROT set exactly what they name, encryption of data only over an encrypted control connection, and QUIT ends the session; the reply of each |
| `Session.Session.Dispatch` | vsftpd-2.3.5/postlogin.c:183-447 | for each command: the entry it makes, the last reply, what it does to PORT, PASV, EPSV ALL and the settings of the session, the traps it can end in, and exactly when it cannot be survived |
| `Session.Session.Round` | vsftpd-2.3.5/postlogin.c:118-452 | the same for a whole round: the history grows by exactly the entry of the command, an entry left open being written as a failure; the client is always answered; and on steady connections a command that is not fatal ends in a trap or goes on |
| `Session.Session.SmoothLives` | vsftpd-2.3.5/postlogin.c:118-452 | under safe settings, a command that meets no failing system call, handshake or endless stream is neither fatal nor can it trap |
| `Session.Session.TrapsNamed` | vsftpd-2.3.5/postlogin.c:118-452 | every trap that a command can end in comes from one of three settings, or from SITE UINS |
| `Session.Session.Run` | vsftpd-2.3.5/postlogin.c:118-452 | over every sequence of commands: no data descriptor, handler, SSL object or open entry at any boundary, every command answered, PORT and PASV exclusive, no listening descriptor lost, each PORT or PASV good for one connection (SITE UINS aside); after EPSV ALL a port comes only from an admitted EPRT and a listener only from EPSV; the log's successes are the transfers reported as complete and the uploads cut by ABOR, of which there are none without async_abor_enable; only the named traps are reachable; with safe settings, steady connections and commands that meet no failure the session does not end |
| `Ascii.StripConcat` | vsftpd-2.3.5/ascii.c:12-54 | conversion of an upload can be cut anywhere but between CR and LF |
| `Ascii.AsciiToBin` | vsftpd-2.3.5/ascii.c:12-54 | one piece, converted in place: no byte is overwritten before it is read, a CR at the end is held back |
| `Ascii.ReceivePiece` | vsftpd-2.3.5/ftpdataio.c:597-622 | the piece with the CR held from the one before; at most one byte longer |
| `Ascii.FileRecv` | vsftpd-2.3.5/ftpdataio.c:578-631 | for every cut of the stream, a completed transfer leaves the whole stream with exactly the CRs before LF removed, a held CR flushed at the end; a failed read leaves all that was decided, or everything if it is the one after the flush; the result is -1 exactly if a write does not fit, and the file then ends in that write |
| `Ascii.ExpandConcat` | vsftpd-2.3.5/ascii.c:56-98 | conversion of a download can be cut anywhere, given the last character before the cut |
| `Ascii.ExpandBound` | vsftpd-2.3.5/ascii.c:56-98 | at most twice the input |
| `Ascii.ExpandIdempotent` | vsftpd-2.3.5/ascii.c:56-98 | converting twice is converting once |
| `Ascii.StripExpand` | vsftpd-2.3.5/ascii.c:12-98 | uploading what was downloaded is uploading the original |
| `Ascii.StripIdentity` | vsftpd-2.3.5/ascii.c:12-54 | an upload is unchanged exactly if it holds no CRLF |
| `Ascii.RoundTrip` | vsftpd-2.3.5/ascii.c:12-98 | the round trip is the identity exactly on data without CRLF |
| `Ascii.ExpandEnded` | vsftpd-2.3.5/ascii.c:56-98 | in what goes to the network every LF stands behind a CR |
| `Ascii.ExpandUnique` | vsftpd-2.3.5/ascii.c:56-98 | a download is the only such stream that an upload would take for the same file |
| `Ascii.BinToAscii` | vsftpd-2.3.5/ascii.c:56-98 | the buffer holds the expansion, within twice the input |
| `Ascii.FileSend` | vsftpd-2.3.5/ftpdataio.c:453-521 | for every cut of the file, the network gets the expansion of the whole file; the result is -2 exactly if a write does not fit, and the network then has everything up to that point and counts all writes before |
| `NetStr.AllocAltTerm` | vsftpd-2.3.5/str.c:104-115 | stops at the first terminator, which must be there |
| `NetStr.ReadLine` | vsftpd-2.3.5/netstr.c:18-88 | for every schedule of peeks the line is the text before the first terminator, consumed through it, if that lies within maxlen bytes; otherwise maxlen bytes are consumed and -1 returned |
| `NetStr.NoLine` | vsftpd-2.3.5/netstr.c:18-88 | without a terminator in reach, maxlen bytes are thrown away, or a stream that ends before kills the session |
| `NetStr.FramingExact` | vsftpd-2.3.5/netstr.c:18-88 | a line is read back exactly if it is shorter than maxlen |
| `NetStr.ReadsWhatWasFed` | vsftpd-2.3.5/netstr.c:18-88 | a whole stream of lines is read back as it was sent |
| `NetStr.ReadLines` | vsftpd-2.3.5/netstr.c:18-88 | whatever the schedule of each of its calls |
| `Reply.EscapeByReplace` | vsftpd-2.3.5/ftpcmdio.c:128-133 | the two rewrites of the whole text are an escaping of each character |
| `Reply.EscapeHasNoLf` | vsftpd-2.3.5/ftpcmdio.c:128-133 | no line feed is left in the text |
| `Reply.UnescapeEscape` | vsftpd-2.3.5/ftpcmdio.c:128-133 | the text is recovered exactly if it holds no NUL |
| `Reply.ReplaceCharLoop` | vsftpd-2.3.5/str.c:319-330 | every occurrence of the character and nothing else is replaced |
| `Reply.BuildReply` | vsftpd-2.3.5/ftpcmdio.c:114-152 | the only LF of a reply is its last byte |
| `Reply.ReplyUnderstood` | vsftpd-2.3.5/ftpcmdio.c:114-152 | a client gets the status and the separator of a reply, and its text exactly if that holds no NUL |
| `Reply.ConversationFramed` | vsftpd-2.3.5/ftpcmdio.c:114-152 | a client reads back a whole conversation reply by reply |
| `Reply.ConversationUnderstood` | vsftpd-2.3.5/ftpcmdio.c:114-152 | and understands each reply as the status, separator and text that were sent, if the texts hold no NUL |
| `Text.LocateMeaning` | vsftpd-2.3.5/str.c:471-496 | the leftmost occurrence, or nothing exactly if there is none |
| `Text.LocateText` | vsftpd-2.3.5/str.c:471-496 | the search loop finds it |
| `Text.Split` | vsftpd-2.3.5/str.c:376-420 | left part, separator and right part make up the text |
| `Text.SplitChar` | vsftpd-2.3.5/str.c:356-364 | splitting at a character cuts at its first occurrence |
| `Text.ReplaceRound` | vsftpd-2.3.5/str.c:340-353 | one round of splitting and appending preserves the result |
| `Text.ReplaceText` | vsftpd-2.3.5/str.c:332-354 | repeated splitting is leftmost non-overlapping replacement |
| `Text.ReplaceConcat` | vsftpd-2.3.5/str.c:332-354 | replacement distributes over parts that no occurrence straddles |
| `Text.LinesOfJoin` | vsftpd-2.3.5/str.c:634-665 | lines that were joined are read back |
| `Text.LinesUnterminated` | vsftpd-2.3.5/str.c:634-665 | what stands behind the last line feed is a line of its own |
| `Text.GetLine` | vsftpd-2.3.5/str.c:634-665 | yields the next line and where the ones after it start |
| `Text.ContainsLine` | vsftpd-2.3.5/str.c:667-680 | true exactly if the line is one of the lines |
| `StrBuf.MyStr.Alloc` | vsftpd-2.3.5/str.c:40-55 | the contents are replaced, with a NUL behind them and a capacity that never shrinks |
| `StrBuf.MyStr.Append` | vsftpd-2.3.5/str.c:57-70 | the contents are extended, with a NUL behind them |
| `StrBuf.MyStr.Trunc` | vsftpd-2.3.5/str.c:149-158 | the trap is met exactly if the length does not fit the capacity; otherwise the contents are cut |
| `StrBuf.MyStr.Empty` | vsftpd-2.3.5/str.c:141-147 | always succeeds, also without a buffer |
| `StrBuf.MyStr.Reserve` | vsftpd-2.3.5/str.c:160-171 | the contents survive if and only if they do not reach the reserved length or hold a NUL there |
| `StrBuf.MyStr.ReplaceChar` | vsftpd-2.3.5/str.c:319-330 | in place, every occurrence and nothing else |
| `StrBuf.SplitText` | vsftpd-2.3.5/str.c:389-420 | on buffers: the source is cut in place and the other string gets the right part |
| `StrBuf.ReplaceTextInPlace` | vsftpd-2.3.5/str.c:332-354 | on buffers: the string becomes its leftmost non-overlapping replacement |
| `UpdateChanges.ReplaceInLines` | vsftpd-2.3.5/mcupdate.c:174-205 | replacement in a text of lines is replacement in each line |
| `UpdateChanges.SwapExact` | vsftpd-2.3.5/mcupdate.c:172-205 | replacing an instruction changes just its line if and only if it stands inside no other line |
| `UpdateChanges.RemoveExact` | vsftpd-2.3.5/mcupdate.c:184-190 | removing an instruction removes just its line if and only if no other line ends in it |
| `UpdateChanges.RemoveBothExact` | vsftpd-2.3.5/mcupdate.c:184-190 | removing two, one after the other, does what is meant if and only if each does: a line that runs into the next is never made good |
| `UpdateChanges.ApplyChange` | vsftpd-2.3.5/mcupdate.c:155-216 | one manual change, on the text |
| `UpdateChanges.StepExact` | vsftpd-2.3.5/mcupdate.c:155-216 | one manual change does to the text what is meant for the lines if and only if the instruction it replaces stands inside no other line, or those it removes end no other line |
| `UpdateChanges.StepMarkers` | vsftpd-2.3.5/mcupdate.c:169-216 | the changed path moves as the table of markers says, every other path stays, and each keeps at most one marker |
| `UpdateChanges.ApplyChanges` | vsftpd-2.3.5/mcupdate.c:147-217 | the loop is the fold of the changes |
| `UpdateChanges.FoldRefines` | vsftpd-2.3.5/mcupdate.c:147-217 | if each change hits only its lines when its turn comes, the whole fold on the text is the fold on lines |
| `UpdateChanges.FoldExact` | vsftpd-2.3.5/mcupdate.c:147-217 | the text is as meant after every change if and only if each change hits only its lines |
| `UpdateChanges.SeparateAllHit` | vsftpd-2.3.5/mcupdate.c:147-217 | this is so whenever no instruction for a changed path stands inside another line |
| `UpdateChanges.FoldMarkers` | vsftpd-2.3.5/mcupdate.c:147-217 | each path ends with at most one marker, the one the fold of the table leads to |
| `UpdateChanges.PrefixDamage` | vsftpd-2.3.5/mcupdate.c:171-175 | an input where the condition fails and another path's line is damaged |
| `UpdateChanges.HarmlessPrefix` | vsftpd-2.3.5/mcupdate.c:191-195 | an input where an instruction stands inside another line and does no harm |
| `McUpdate.CollectRemovals` | vsftpd-2.3.5/mcupdate.c:77-91 | the old entries that the new list lacks, in order |
| `McUpdate.CollectAdditions` | vsftpd-2.3.5/mcupdate.c:93-123 | the new entries that the old list lacks, in order, with their kinds |
| `McUpdate.MarkedRemovals` | vsftpd-2.3.5/mcupdate.c:92 | putting in the marker by a replacement over the whole text marks each entry once |
| `McUpdate.MarkedAdditions` | vsftpd-2.3.5/mcupdate.c:112-119 | the same for the additions |
| `McUpdate.DiffTextIsLines` | vsftpd-2.3.5/mcupdate.c:77-123 | the text generated is exactly the removals and then the additions |
| `McUpdate.DiffCorrect` | vsftpd-2.3.5/mcupdate.c:77-123 | applying the lines to the old set of entries gives the new set |
| `McUpdate.DiffSingle` | vsftpd-2.3.5/mcupdate.c:77-123 | no path is marked twice by the comparison |
| `McUpdate.FindVersion` | vsftpd-2.3.5/mcupdate.c:136-146 | finds the changes made since the client's version, or that there is no such mark |
| `McUpdate.FileRead` | vsftpd-2.3.5/filestr.c:19-60 | a file up to the limit is read whole, of a longer one the beginning |
| `McUpdate.CreateUpdateInstructions` | vsftpd-2.3.5/mcupdate.c:34-219 | the loops and branches of the generator compute `Update`, whose meaning the rows on errors, text, entries and markers give |
| `McUpdate.UpdateMeaning` | vsftpd-2.3.5/mcupdate.c:77-217 | comparison and changes together: if each change hits only its lines, each path ends with the marker that the table leads to from the comparison |
| `McUpdate.ChangesAfterMeaning` | vsftpd-2.3.5/mcupdate.c:136-146 | the changes since a version are the lines behind its first mark, and there are none exactly if there is no mark |
| `McUpdate.UpdateErrors` | vsftpd-2.3.5/mcupdate.c:52-76 | each error if and only if the files it stands for are missing, and instructions if and only if none is and the version has its mark |
| `McUpdate.UpdateText` | vsftpd-2.3.5/mcupdate.c:57-217 | the text compares the client's list with the latest one, in this order, and folds in the changes since the client's version |
| `McUpdate.UpdateBringsLatest` | vsftpd-2.3.5/mcupdate.c:34-219 | from the disk to the client: with no manual changes, carrying out the instructions turns the entries of the client's version into the latest |
| `McUpdate.UpdateMarkers` | vsftpd-2.3.5/mcupdate.c:34-219 | from the disk to the client: with changes that hit only their lines, each path is found with the one marker that the table leads to |
| `McUpdate.KindTold` | vsftpd-2.3.5/mcupdate.c:104-119 | a new entry is announced as a file, a directory or something else, and only remarked on if it cannot be looked at |
| `RateLimit.StepBound` | vsftpd-2.3.5/ftpdataio.c:258-280 | with a rate in range, one step stays below the limit plus one byte per second, over the time including its pause |
| `RateLimit.RunBound` | vsftpd-2.3.5/ftpdataio.c:236-281 | so does every run with rates in range, with a hundredth of a second of grace for each step at which the clock stood still |
| `RateLimit.StrictRunBound` | vsftpd-2.3.5/ftpdataio.c:236-281 | with a strictly advancing clock and rates in range the total stays below (limit + 1) times the total time |
| `RateLimit.PauseNeeded` | vsftpd-2.3.5/ftpdataio.c:275-278 | a pause never pushes the rate below the limit |
| `RateLimit.StepNeeded` | vsftpd-2.3.5/ftpdataio.c:268-280 | so a step with an exact sleep takes no longer than its data at the limit, or than it took anyway |
| `RateLimit.RunNeeded` | vsftpd-2.3.5/ftpdataio.c:236-281 | and so does every run of such steps: the limit slows a transfer down no more than it must |
| `RateLimit.StandstillExceeds` | vsftpd-2.3.5/ftpdataio.c:264-267 | without it, an input that passes data in no time |
| `RateLimit.InRangeExact` | vsftpd-2.3.5/ftpdataio.c:268 | the rate fits 32 bits if and only if fewer than 2^32 bytes per elapsed second were moved |
| `RateLimit.OutOfRangeExceeds` | vsftpd-2.3.5/ftpdataio.c:268-274 | out of range, an input that exceeds the bound unnoticed |
| `RateLimit.Meter.HandleIo` | vsftpd-2.3.5/ftpdataio.c:236-281 | which calls count, when a pause is made and how long, and from when the next step is measured, with any outcome of an undefined conversion |
| `Ipv6.ParseHex` | vsftpd-2.3.5/ipaddrparse.c:134-166 | the group's two bytes, or a refusal; the accumulator stays within 16 bits between digits |
| `Ipv6.HexDigitExact` | vsftpd-2.3.5/ipaddrparse.c:139-154 | the sixteen digits, in either case, and nothing else |
| `Ipv6.GroupCase` | vsftpd-2.3.5/ipaddrparse.c:134-166 | letter case makes no difference to a group |
| `Ipv6.ParseDotQuad` | vsftpd-2.3.5/ipaddrparse.c:168-219 | exactly four decimal fields up to 255, or a refusal |
| `Ipv6.FieldsMeaning` | vsftpd-2.3.5/ipaddrparse.c:168-219 | a text is taken for a dotted quad if and only if it is four non-empty decimal fields up to 255 with dots between them |
| `Ipv6.ParseGroups` | vsftpd-2.3.5/ipaddrparse.c:103-132 | the bytes of all groups in order |
| `Ipv6.ParseIpv6` | vsftpd-2.3.5/ipaddrparse.c:22-59 | left groups, zeros, right groups |
| `Ipv6.SixteenBytes` | vsftpd-2.3.5/ipaddrparse.c:43-58 | never more than 16 bytes, and 16 if and only if something follows `::` or there are eight groups before it, a dotted quad counting as two |
| `Ipv6.GroupsLength` | vsftpd-2.3.5/ipaddrparse.c:103-132 | a parsed text has two bytes for each group it holds |
| `Ipv6.GroupsOfJoin` | vsftpd-2.3.5/ipaddrparse.c:103-132 | groups that were joined by colons parse to their bytes |
| `Ipv6.GroupsMeaning` | vsftpd-2.3.5/ipaddrparse.c:103-132 | a text is taken for groups if and only if it spells them with single colons between, and at most one colon at the very end |
| `Ipv6.FullAddress` | vsftpd-2.3.5/ipaddrparse.c:22-59 | groups without `::` parse to their bytes |
| `Ipv6.CompressedAddress` | vsftpd-2.3.5/ipaddrparse.c:22-59 | groups, `::`, groups parse to left, zeros, right: 16 bytes |
| `Ipv6.PrintedGroup` | vsftpd-2.3.5/ipaddrparse.c:134-166 | parsing a printed group gives its two bytes |
| `Ipv6.PrintedQuad` | vsftpd-2.3.5/ipaddrparse.c:168-219 | parsing a printed dotted quad gives its four bytes |
| `Ipv6.PrintedAddress` | vsftpd-2.3.5/ipaddrparse.c:22-59 | eight printed groups parse back to their 16 bytes |
| `Ipv6.ShortAddress` | vsftpd-2.3.5/ipaddrparse.c:49-58 | `1::` and `1` yield two bytes |

## Left out

- FilenameFilter.PassesFilter: assumes a filter without NUL, because `str_locate_str` would read its text only up to one; and a counter that starts within its limit, as all callers start it.
- Hash.HashTable.Add: assumes that the key is new, and Free that it is present; the program traps otherwise, and the listener is shown to keep to this.
- Listener.Listener.Serve: children are reaped at the accept point, the close after a fork is not interrupted, and fork does not return a pid that is still in the table.
- Lockstep.RunsInStep: its steps make a request only when the one before is finished; what a handler's request inside another does is `NestedRequestExact`. The end of one process in mid-request, which ends the session, is not a step.
- Lockstep.NoDeadlock: an item is taken off the wire whole, and the wire holds any number of bytes; `WriterMeetsReader` says why a small wire does not block.
- Session.Session.Run: once a handler has made a request of the slave inside another one, nothing more is said: the outcome `OutOfStep` stands for whatever follows. Alarms can only end the session or start anew.
- Session.Session.WriteControl: the text of a reply is left open and cut to what the slave accepts, 131072 bytes; replies are built from command lines of at most 4096 bytes and from paths, but that they fit is not proved.
- Session.Session.Round: with async_abor_enable the last reply to a transfer is the one stated or the confirmation of an ABOR, and which of the two is left open, since a signal may come at any time.
- Session.Session.HandlePasv: the reply is its code and the port told; the address in it is not modelled.
- Session.Session.HandleSiteUins: the instructions are given; how they come about is `McUpdate`.
- Session.Session.Interrupt: that a connection shut down by ABOR brings no more data is not enforced; later reads may bring data, nothing, or an error.
- Session.Session.HandlePort: the six numbers arrive parsed, as do the fields of EPRT and EPSV; the parsing of the dotted forms of addresses is modelled in `Ipv6`.
- Session.Session.Dispatch: settings that forbid a command are folded into the commands that only reply.
- Session.Session.HandleFileOperation: stands for MKD, RMD, DELE and SITE CHMOD together, which differ only in the system call.
- StrBuf.MyStr.Append: lengths stay below 2^32, so that `buf_needed` does not wrap around; the source does not check this.
- RateLimit.Meter.HandleIo: times are real numbers instead of seconds and microseconds.
- FilenameFilter.StarsExact: a filter with several stars that also holds `?` or braces has soundness, and `StarsDecided` up to its last text between stars, but no exact condition of its own.
- NetStr.ReadLine: not the number returned on success, which is an offset into the last piece and not the count its header promises.
- Outside `StrBuf` and `Ascii` the strings of the program are values: their buffers, growth and sharing are modelled only in `StrBuf`.
- The one-process model: its privileged operations are those of `PrivParent`, called directly.
- Login and what surrounds it (PAM, credentials, chroot, capabilities, fork of the children) beyond its protocol.
- OpenSSL: only whether a handshake, read, write or close succeeded.
- System calls, sockets and clocks: open outcomes.
- Directory listings, banners, configuration files, tunables tables, sandboxing: formatting and table lookups.
- `handle_http`, which never comes back to the command loop.
- The Java client.
