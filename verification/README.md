# ADB file system plugin for Double Commander: verified model

A Dafny model of the plugin's logic, with proofs of what it promises. The plugin shows the files of Android phones in a
file manager. It talks to the adb server over TCP: the sync protocol moves and lists files, and shell command lines
delete, rename, copy and stamp them. Everything lies in one virtual tree, `/<device>/<path>`, and directory listings are
cached for a few seconds.

Check the whole project with `dafny verify dfyconfig.toml`.

## How it is modelled

- **The wire.** `Wire` has the framing of requests and sync packets, and next to it a reference for the other side: a
  parser of the stream an upload writes, and printers of the streams a download, a listing and a stat read. `Server` reads
  the other requests and gives the answers, failures included, and `Truncation` cuts them off anywhere. `Transport`
  has the connection: the kernel's answers to `recv` and `send` are an arbitrary finite list (short counts, EINTR,
  timeouts, errors, end of stream), and the answers of the user's progress callback are an arbitrary function of the
  number of polls. `Client`, `SyncRecv`, `SyncSend`, `SyncList` and `ShellCommand` are the conversations, loop by loop.
  A ghost monitor on the connection counts polls, sends and receives after the first refusal.
- **The plugin.** `World` has the local files, the devices' file trees, and a ghost history of every state they went
  through. `Plugin.PluginCore` has the operations as methods that change this world and the cache step by step. All that
  can fail or be answered by a device is a parameter, so a contract holds for every behaviour of the outside: a shell
  command even turns a device's tree into anything its `effect` says. `Effects` says, as functions, which trail of
  states, which cache and which result each operation produces; the methods are proved to produce exactly that, and
  `Safety`, `DeviceSafety`, `Refinement` and `Staleness` prove what the trails keep. `Answers` says what each operation
  comes to in terms of its flags, modes and replies alone, and `Fulfilment` what it has then done, and that it succeeds
  when the device does its part. `Session` ties the runs of the theorems back to calls of the class, and `Cancellation`
  joins the conversations to the operations that act on their outcome.
- **The device.** `Shell` has the POSIX word splitter, `Device` what the words mean to a file tree. The tree knows each
  place by one spelling; a path may come in any (`/d`, `/d/`, `/x/../d`), and what it leads to is resolved. A device is
  *obedient* when it acts on the words of the command line it was sent (or was interrupted doing so), *candid* when it is
  not silent about a command it did not carry out, and *harmless* when a command that failed had no effect. There is no
  exit status on this transport; these are the assumptions the plugin's "no output means success" rests on, and each
  theorem names those it needs. `Device.ObedientReply` shows that they can be met.
- **Conversions.** `Utf`, `FindData`, `TempName`, `FileTime`, `Calendar`, `Decimal`, `Paths`, `Devices` and `Commands` hold
  the transcoders, the names and the times, each against an independent reference (RFC 3629, RFC 2781, the shell's
  quoting rules, the proleptic Gregorian calendar of POSIX XBD section 4.16).

## Main results

1. `Refinement.HitsAreCurrent`: after every run of list, delete, rmdir, mkdir, rename, move, copy, set-time, get and put,
   a listing served from the cache is the listing the device would give now. Conditions: one canonical key per directory,
   parents exist, no links, an obedient device, failures without effect, directories' own size and date not compared.
   `Staleness` gives the exact limits, for keys in any spelling: `MakeDirExactly` (mkdir -p above the parent, or under
   another name) with its instances `TwoNamesGoStale` and `TrailingSlashGoesStale`, and `FailedUploadExactly` (a failed
   upload that had begun a file).
2. `SyncSend.Send` with `Wire.UploadRoundTrip`, and `SyncRecv.Recv` with `SyncRecv.DownloadRoundTrip`: end-to-end round
   trips through three nested retry loops, and what every failing run leaves on the wire and in the file.
   `Server.RecvIsRead`, `ListIsRead`, `StatIsRead` and `ShellIsRead`: every other request is read back as what was asked.
   `Truncation.DownloadCut` and `ListingCut`: no reply that is cut off passes for a complete one.
3. `Safety.GetKeepsTarget`, `GetIsAllOrNothing`, `GetLosesNothing`, `PutLosesNothing`, `DeviceSafety.MoveLosesNothing`,
   `CopyKeepsSource`: replacement and moves, state by state, whatever fails. `Fulfilment.CopyGoesThrough`,
   `MoveGoesThrough`, `DeleteRemoves` and `RemoveDirRemoves`, with the exact answers in `Answers`: what is asked for is done.
4. Cancellation, from the callback to the result: `Cancellation.GetOverWire` and `Cancellation.PutOverWire`, which rest on
   `Transport.TcpTransport.ReadExactly`, `SyncRecv.Recv`, `SyncSend.Send`, `Safety.CancelledGet` and `Safety.PutForgets`.
   A refusal is reported as a cancellation if and only if it does not come while the message of a FAIL is being read.
5. Exact conversions: `Utf.Utf16RoundTrip`, `FileTime.TimeRoundTrip`, `Calendar.TouchTRoundTrip`, `Shell.QuoteIsOneWord`,
   `Paths.NamingChain`, `TempName.TempNameDiffers`, `Cache.HitsAreExact`.

## Where the code is narrower than its comments

The model follows the code.

- A UTF-8 sequence that decodes to a surrogate, an overlong form or a value above U+10FFFF is replaced as a whole, not
  octet by octet (`utils.hpp:106-109`).
- When the date of a download cannot be set, the final name is unlinked even if it replaced an older file
  (`fsplugin_impl.hpp:616-628`). `Safety.GetKeepsTarget` and `GetIsAllOrNothing` give this as the exact exception.
- A target named by dots and the temporary suffix alone is its own temporary name; a failed download then destroys it
  (`fsplugin_impl.hpp:319-340`). `TempName.TempNameDiffers` shows that this is the only such name.
- A stall that is refused while the message of a FAIL packet is being read is reported as a connection fault, not as a
  cancellation (`adbclient.hpp:483-487`, `595-598`). `SyncRecv.Recv` and `SyncSend.Send` give this as the exact exception,
  told by what is still to be received; `Cancellation.RefusedDownload` and `RefusedUpload` are runs in which it occurs.
- A FAIL packet that is cut off or too long also counts as the explanation of a failed write (`adbclient.hpp:248-259`).
- A mutation that fails without being cancelled drops nothing from the cache (`fsplugin_impl.hpp:706-719`, `1203-1208`).
- A copy onto a directory lands inside it, and the directory is stamped instead (`fsplugin_impl.hpp:1162-1172`);
  `DeviceSafety.CopyIsExact` gives this as the exact exception, whichever way the directory is spelled.
- The check that a file is not copied onto itself compares spellings (`fsplugin_impl.hpp:1124-1133`); another spelling of
  the source is left to the device (`DeviceSafety.CopyOntoItself`).
- A modification time is sent modulo 2^32 (`adbclient.hpp:582`).
- A change made under one of a device's two names, or under a path with a trailing slash, leaves listings cached that it
  makes wrong (`adbutils.hpp:156-168`, `fsplugin_impl.hpp:1216-1219`).

## Model

| member | source | states |
|---|---|---|
| Transport.TcpTransport.ReadSome | transport.hpp:108-124 | a receive hides interrupts and waited-out timeouts; a timeout comes back only after the callback refused, and never as the end of the stream |
| Transport.TcpTransport.ReadExactly | transport.hpp:279-294 | true only with the next n octets in order and the stream advanced by exactly n; on a connection that only delays, false only after a refusal; after a refusal at most one more poll and no further receive |
| Transport.TcpTransport.WriteAll | transport.hpp:251-277 | what reached the wire is a prefix of the buffer, all of it on success; on a connection that only delays, false only after a refusal |
| Transport.TcpTransport.KeepWaiting | transport.hpp:52-54 | one poll, whose refusal is remembered by the stall flag |
| Wire.ReadOfU32Le | adbproto.hpp:96-106 | every 32-bit value reads back from its four octets |
| Wire.ParseHexLength | adbproto.hpp:127-139 | accepts exactly four hexadecimal digits and yields their value |
| Wire.HexDigitsAre | adbproto.hpp:109-121 | the digits that are read are those that are written, and their capitals |
| Wire.Hex4RoundTrip | adbproto.hpp:72-80 | every length up to 65535 reads back from its four digits |
| Wire.ReadOfHostRequest | adbproto.hpp:72-80 | a server reads a framed request back, with what follows it untouched; a too long one is not encoded |
| Wire.ReadOfSendPathSpec | adbproto.hpp:199-201 | path and mode come back by splitting at the last comma, whatever the path holds |
| Wire.ChunksOfContent | adbclient.hpp:549-580 | the chunks of an upload concatenate to the content; there are ceil(size/65536), all full but the last, none empty |
| Wire.ParseOfDataStream | adbclient.hpp:472-519 | any division of a content into chunks of at most 65536 octets parses back chunk by chunk, up to DONE and no further |
| Wire.UploadRoundTrip | adbclient.hpp:522-607 | a reference adbd reads the upload transcript back as exactly serial, path, mode, chunks of the content and mtime modulo 2^32 |
| Wire.ParseOfListStream | adbclient.hpp:177-234 | every sequence of entries, as DENTs then DONE, parses back as that sequence |
| Client.SendRequestAndCheckStatus | adbclient.hpp:99-126 | what is sent is a prefix of the framed request; the result is what the status says, or a connection fault only on a connection that does more than delay |
| Client.ReadLengthPrefixedMessage | adbclient.hpp:78-93 | a refused request fails with the message of its reply |
| Client.OpenSyncTransport | adbclient.hpp:692-727 | success only with both opening requests sent whole and accepted |
| Client.WriteSyncPacket | adbclient.hpp:130-140 | header and payload, in order; a prefix of them when it fails |
| Client.ReadSyncHeader | adbclient.hpp:142-149 | the next eight octets as identifier and argument |
| Client.ReadSyncFailMessage | adbclient.hpp:154-169 | the message that follows, read only if its length is within bounds |
| Client.EndInFail | adbclient.hpp:483-487 | a refusal while the message is read comes out as a connection fault, and only then |
| Client.ReadPendingSyncFail | adbclient.hpp:248-259 | a message only from a FAIL packet at the head of the stream; on a delaying connection, exactly when that packet has something to say, be it that it is cut off or too long |
| Client.LocalFile.WriteAll | adbclient.hpp:268-285 | the file grows by a prefix of the buffer, all of it on success, through short writes and interrupts |
| Client.LocalFile.ReadAll | adbclient.hpp:289-306 | exactly the next n octets of the file, or failure |
| SyncRecv.ReceivePacket | adbclient.hpp:473-516 | one packet: a chunk goes into the file whole, or the download ends as the packet says |
| SyncRecv.ReceiveData | adbclient.hpp:472-519 | success exactly when all chunks up to DONE are in the file; a failing run leaves whole first chunks, part of one only if the local write failed |
| SyncRecv.Recv | adbclient.hpp:447-520 | the whole download: request sent, file equal to the chunks, connection closed; with a latching callback a refusal is reported as cancelled if and only if what is left to receive is not the rest of a FAIL body; on a delaying connection the outcome is the server's; and the exception occurs |
| SyncRecv.DownloadRoundTrip | adbclient.hpp:447-520 | however the device cuts a content into chunks, the download is given exactly these and succeeds |
| SyncSend.SendChunk | adbclient.hpp:554-579 | one DATA packet of the file's next octets, or an explained end |
| SyncSend.SendData | adbclient.hpp:549-580 | the wire holds the DATA packets of the content, or a prefix of them when it fails |
| SyncSend.ExplainFailedWrite | adbclient.hpp:562-573 | after a failed write: cancelled after a refusal, else the device's own reason if one is waiting, else a connection fault |
| SyncSend.Finish | adbclient.hpp:582-606 | DONE carries the mtime modulo 2^32; the result is the device's answer to it, or a cancellation, exactly told apart |
| SyncSend.Send | adbclient.hpp:522-607 | a successful upload has written exactly the transcript a reference adbd reads back; every failing run has written a prefix of that one transcript and fails for one of the named reasons; a refusal is reported as cancelled if and only if it is not the case that all was sent and the rest of the device's FAIL body is left to receive |
| SyncList.ReadListEntry | adbclient.hpp:177-234 | one entry, the end or a fault; no more than 16+1024 octets are ever asked for |
| SyncList.List | adbclient.hpp:339-379 | the entries the server sends, in order; on every failure none at all |
| SyncList.ListRoundTrip | adbclient.hpp:339-379 | what a device encodes is what the listing returns |
| SyncList.Stat | adbclient.hpp:381-444 | the three fields of the reply; all zero means that nothing is there |
| SyncList.StatRoundTrip | adbclient.hpp:381-444 | attributes that are not all zero come back as they are |
| ShellCommand.ReadToEnd | adbclient.hpp:626-638 | what is collected and what is left make up the stream; on a delaying connection nothing is left |
| ShellCommand.Run | adbclient.hpp:610-642 | the output is a prefix of what the device sends after both requests were accepted, all of it on a delaying connection; success says no more than that the stream ended |
| Server.RecvIsRead | adbclient.hpp:465-470 | the device reads a download's request as one for exactly that file on exactly that device |
| Server.ListIsRead | adbclient.hpp:352-357 | the same for the request for a listing |
| Server.StatIsRead | adbclient.hpp:395-400 | the same for a stat |
| Server.ShellIsRead | adbclient.hpp:610-625 | a command reaches the shell of its device as it is |
| Server.DownloadOctets | adbproto.hpp:72-80 | the requests of a download, octet by octet |
| Server.CommandOctets | adbproto.hpp:72-80 | the requests of a command, octet by octet, with a length that takes a letter |
| Server.UploadOctets | adbproto.hpp:99-154 | the packets of an upload, octet by octet: the mode in decimal digits, lengths and the date least significant octet first, the date cut to 32 bits |
| Server.GreetingIsRead | adbclient.hpp:99-126 | two OKAYs open a conversation; a refusal of either request has the server's message for an error |
| Server.LongSerial | adbproto.hpp:72-80 | a request too long for its length digits is not sent and fails |
| Server.FailedDownload | adbclient.hpp:472-519 | a FAIL in the middle of a download: the chunks before it are delivered and its message is the error, unless it is longer than 64 KiB |
| Server.ChunkIsReceived | adbclient.hpp:492-516 | a chunk of up to 64 KiB is received |
| Server.RefusedPacket | adbclient.hpp:488-499 | a longer chunk, or a packet of any other kind, ends the download with a fault |
| Server.UploadIsAnswered | adbclient.hpp:588-606 | OKAY is success, a message is the error, anything else is a fault |
| Server.FailureWaits | adbclient.hpp:248-259 | a FAIL with a message is found after a failed write, and its message is the explanation |
| Server.FailedListing | adbclient.hpp:154-234 | a FAIL in the middle of a listing has its message for the error |
| Server.RefusedEntry | adbclient.hpp:211-220 | a name of more than 1024 octets ends the listing with a fault |
| Server.StatIsAnswered | adbclient.hpp:381-444 | attributes come back, all zero ones as absence, and a message as the error |
| Truncation.DownloadCut | adbclient.hpp:472-519 | a download cut off at any octet fails and delivers no more than whole chunks from before the cut |
| Truncation.AnswerCut | adbclient.hpp:588-606 | the answer to an upload cut off at any octet is a fault |
| Truncation.ListingCut | adbclient.hpp:339-379 | a listing cut off at any octet fails, and never passes for a shorter one |
| Utf.ShiftsAreArithmetic | utils.hpp:28-44 | the shifts and masks of the source are the divisions and remainders of the model, bit for bit |
| Utf.MasksAreRanges | utils.hpp:69-112 | the mask tests on octets are range tests |
| Utf.DecodeUtf8 | utils.hpp:69-112 | a decode step consumes at least one octet and never more than there are, and yields a scalar value |
| Utf.DecodeAt | utils.hpp:69-112 | the accumulating loop computes that decode step |
| Utf.CharDecodes | utils.hpp:69-112 | a character of the RFC 3629 grammar decodes whole, to the code point whose encoding it is |
| Utf.MalformedIsReplaced | utils.hpp:69-112 | anything else becomes one U+FFFD: octets bound together by their bit patterns as a whole, any other octet by itself |
| Utf.Utf8ToWide | utils.hpp:148-158 | the loop yields the specified units, then a NUL |
| Utf.WideToUtf8 | utils.hpp:114-138 | the loop yields the specified octets of the first len units |
| Utf.Utf16IsWellFormed | utils.hpp:148-158 | any octets become well-formed UTF-16 |
| Utf.Utf8IsWellFormed | utils.hpp:114-138 | any units become well-formed UTF-8 |
| Utf.Utf8RoundTrip | utils.hpp:114-158 | well-formed UTF-8 survives the way there and back unchanged |
| Utf.Utf16RoundTrip | utils.hpp:114-158 | any UTF-16 comes back with each unpaired surrogate, and nothing else, replaced by U+FFFD |
| Utf.RepairIsExact | utils.hpp:114-138 | the repair changes nothing exactly when the units are well formed |
| FindData.Utf8ToWideBuf | utils.hpp:164-193 | true exactly when the whole name and its NUL fit; otherwise a NUL-terminated first part; nothing else of the buffer changes |
| FindData.CopyLengthIsLongest | utils.hpp:164-193 | what is stored of a longer name is its longest well-formed first part that fits |
| FindData.FillFindData | fsplugin_impl.hpp:88-111 | exactly the entries whose name fits 259 units are rendered, with everything they say; the others leave a zeroed result |
| FindData.RenderedReads | fsplugin_impl.hpp:88-111 | the size from its two halves, the kind, the mode, the name and the three times can be read off a find result |
| FindData.RenderedIsFaithful | fsplugin_impl.hpp:88-111 | two entries with the same find result are the same entry |
| FindData.FindHandle.Advance | fsplugin_impl.hpp:129-138 | the next entry that fits, and exhaustion for ever after |
| FindData.FindHandle.Enumerate | fsplugin_impl.hpp:129-138 | repeated calls hand out exactly the entries that fit, in order |
| FindData.RemainingLength | fsplugin_impl.hpp:129-138 | as many entries are handed out as fit |
| FindData.RemainingIsOrdered | fsplugin_impl.hpp:129-138 | each fitting entry comes right after the fitting ones before it |
| FileTime.TimeRoundTrip | utils.hpp:195-220 | a time_t survives exactly for -11644473600 < t <= 1833029933770, in wrapping 64-bit arithmetic |
| FileTime.FileTimeRoundTrip | utils.hpp:195-220 | re-encoding the time of a set FILETIME lands between it and 1970, less than a second away |
| FileTime.TimeToFileTimeInjective | utils.hpp:195-202 | distinct representable times have distinct FILETIMEs |
| Calendar.CivilTimeIsRight | fsplugin_impl.hpp:357-361 | the broken-down time is a date of the Gregorian calendar and a time of day, and adds up to the second |
| Calendar.CivilTimeOfEpoch | fsplugin_impl.hpp:357-361 | it is the only one that does |
| Calendar.TouchTRoundTrip | fsplugin_impl.hpp:357-396 | accepted are exactly the seconds of the years 1 to 9999; the text has 15 characters and reads back as the same second |
| TempName.Utf8TruncatedLength | fsplugin_impl.hpp:266-275 | the loop finds the cut |
| TempName.CutAtStart | fsplugin_impl.hpp:266-275 | the cut of well-formed UTF-8 is well formed and at most three octets short |
| TempName.TempNameFits | fsplugin_impl.hpp:319-340 | same directory, hidden, at most 255 octets, well-formed if the target's name is, shortened by no more than needed plus three octets |
| TempName.TempNameOfShort | fsplugin_impl.hpp:319-340 | for a name with room to spare: a dot, the name, the marker, the process id in decimal digits |
| TempName.TempNamesOfProcesses | fsplugin_impl.hpp:319-340 | two processes never share a temporary name for the same target |
| TempName.TempNameDiffers | fsplugin_impl.hpp:319-340 | the temporary name is the target's own exactly for one name per process: dots, then the suffix |
| Shell.ShellQuote | adbutils.hpp:73-86 | the loop yields the quoted form |
| Shell.QuoteIsOneWord | adbutils.hpp:73-86 | to a POSIX shell the quoted form of any NUL-free string is one word, equal to that string |
| Commands.MeaningOfDelete | fsplugin_impl.hpp:742-745 | the line lexes to rm, -f and the path, whatever the path holds |
| Commands.MeaningOfRemoveDir | fsplugin_impl.hpp:747-750 | the line lexes to rm, -rf and the path |
| Commands.MeaningOfMakeDir | fsplugin_impl.hpp:752-755 | the line lexes to mkdir, -p and the path |
| Commands.MeaningOfMove | fsplugin_impl.hpp:1074-1076 | the line lexes to mv and the two paths |
| Commands.MeaningOfCopy | fsplugin_impl.hpp:1162 | the line lexes to cp and the two paths |
| Commands.MeaningOfTouchEpoch | fsplugin_impl.hpp:872-875 | the line asks for exactly the second it was given |
| Commands.MeaningOfTouchDate | fsplugin_impl.hpp:891-905 | so does the date form, in UTC, for every second it can express |
| Paths.ParseRemotePath | adbutils.hpp:30-54 | the on-device path is never empty and starts with a slash |
| Paths.LeadingSlashIsOptional | adbutils.hpp:30-54 | only "" and "/" are the root, and elsewhere a leading slash makes no difference |
| Paths.ParentOfJoin | fsplugin_impl.hpp:294-303 | the directory that contains a joined path is the one it was joined to |
| Paths.SerialOfDisplayName | fsplugin_impl.hpp:478-503 | the serial number can be read back out of the display name |
| Paths.SerialIsBetween | fsplugin_impl.hpp:486-503 | a name of the form "<anything> (<serial>)" yields that serial, and any other name is one itself |
| Paths.NamingChain | fsplugin_impl.hpp:939-943 | a path below a display name leads to exactly that device and path if and only if the name has no slash |
| Devices.SplitFields | adbproto.hpp:223-239 | the three loops yield the runs of non-blank characters, none of them empty |
| Devices.ParseDevicesL | adbproto.hpp:248-283 | the loop over the text yields the devices of its lines |
| Devices.DevicesAreWellFormed | adbproto.hpp:248-283 | every serial number and state is a non-empty word without blanks |
| Devices.ListedDeviceIsReachable | adbproto.hpp:248-283 | the naming chain holds for every device of every device list |
| Devices.ReadOfPrintedDevices | adbproto.hpp:248-283 | a printed device list reads back as exactly its devices, in order |
| Devices.LineIsRead | adbproto.hpp:248-283 | indented, spaced by any runs of blanks and ended by blanks or a carriage return, a line of two or more words is a device, and the heading and shorter lines are none |
| Devices.ModelIsLast | adbproto.hpp:264-271 | the model is what the last word with that key says |
| Devices.TextIsRead | adbproto.hpp:248-283 | the devices of a text are those of its lines, in order |
| Cache.ListingCache.Put | adbutils.hpp:127-130 | the entry is stored with the clock's time; no other changes |
| Cache.ListingCache.Get | adbutils.hpp:134-151 | a listing only at an age in [0, ttl); an expired entry is dropped |
| Cache.ListingCache.Invalidate | adbutils.hpp:156-168 | removes exactly the directory and the keys beneath it |
| Cache.ListingCache.Clear | adbutils.hpp:170-173 | removes everything |
| Cache.EntriesAreStanding | adbutils.hpp:127-173 | after any history an entry is there exactly if some put stored it and nothing since ended its life |
| Cache.HitsAreExact | adbutils.hpp:127-173 | in any history under any clock a get hits with a listing if and only if it was put for that key, at an age in [0, ttl), and not replaced, expired or invalidated since |
| Cache.ExpiredStaysGone | adbutils.hpp:134-151 | an entry found expired stays gone even if the clock is set back |
| Plugin.PluginCore.InvalidatePathAndParent | fsplugin_impl.hpp:1216-1219 | drops exactly what lies at or under the path or its parent |
| Plugin.PluginCore.IsBlankOutput | fsplugin_impl.hpp:282-288 | the loop finds out whether only line ends were printed |
| Plugin.PluginCore.RunMutatingShellCommand | fsplugin_impl.hpp:1189-1211 | one command; silence is success and drops cached listings, failure drops none |
| Plugin.PluginCore.DeleteFile | fsplugin_impl.hpp:742-745 | the whole new state of a deletion |
| Plugin.PluginCore.RemoveDir | fsplugin_impl.hpp:747-750 | the whole new state of a directory's removal |
| Plugin.PluginCore.MakeDir | fsplugin_impl.hpp:752-755 | the whole new state of a directory's creation |
| Plugin.PluginCore.SetModificationTime | fsplugin_impl.hpp:843-924 | stat, epoch form, date form: every state passed through, the cache and the result |
| Plugin.PluginCore.RunDeviceMove | fsplugin_impl.hpp:1074-1097 | the whole new state of a move; both ends' listings go |
| Plugin.PluginCore.RunDeviceCopy | fsplugin_impl.hpp:1122-1187 | every state of a copy; only the target's listings go |
| Plugin.PluginCore.RenameOrMove | fsplugin_impl.hpp:776-841 | the refusals and the two flavours, with the flags that tell them apart |
| Plugin.PluginCore.Receive | fsplugin_impl.hpp:580-581 | the opened file passes through the pieces received, one after another |
| Plugin.PluginCore.Place | fsplugin_impl.hpp:583-628 | clean-up, rename and stamp, in this order |
| Plugin.PluginCore.Fetch | fsplugin_impl.hpp:571-628 | every state of a transfer and its code |
| Plugin.PluginCore.GetFile | fsplugin_impl.hpp:505-656 | every state of a download, the cache and the code |
| Plugin.PluginCore.PutFile | fsplugin_impl.hpp:658-740 | every state of an upload, the cache and the code |
| Plugin.PluginCore.ResolveSymlinkTargets | fsplugin_impl.hpp:1035-1049 | each link, and nothing else, is marked by what a stat through it says |
| Plugin.PluginCore.AppendEntries | fsplugin_impl.hpp:1051-1067 | a row for each entry but "." and ".." |
| Plugin.PluginCore.CheckIsDirectory | fsplugin_impl.hpp:979-1011 | true exactly for a directory or a link to one |
| Plugin.PluginCore.ListRootDevices | fsplugin_impl.hpp:945-974 | a row for each device that is ready, a warning about each other one, or failure |
| Plugin.PluginCore.ListDirectory | fsplugin_impl.hpp:422-475 | the devices at the root; below it a live cached listing as it is, else the device's, which is then cached |
| Answers.MutationAnswers | fsplugin_impl.hpp:742-755 | a deletion, a removal and a creation are one command each; success is silence, and success alone forgets the path and its parent |
| Answers.SetTimeAnswers | fsplugin_impl.hpp:843-924 | when a date is set, which of the two commands are sent for it, and what is forgotten |
| Answers.MoveAnswers | fsplugin_impl.hpp:1074-1097 | a move is one command, whose silence is success and forgets both ends |
| Answers.CopyAnswers | fsplugin_impl.hpp:1122-1187 | exactly when a copy is refused, when it succeeds, and what it forgets |
| Answers.GetIsRefused | fsplugin_impl.hpp:510-550 | the flags and stats for which a download is refused, with which code, and that a refused one does nothing |
| Answers.GetAnswers | fsplugin_impl.hpp:571-656 | the code of every other download; OK means that exactly the file, with its link's target's date if it is a link, is in place |
| Answers.GetTouches | fsplugin_impl.hpp:552-567 | a download uses no local name but the target and, only if that is taken, the temporary one; without the flag nothing happens on the device |
| Answers.PutIsRefused | fsplugin_impl.hpp:658-697 | the flags and stats for which an upload is refused, with which code, and that a refused one does nothing |
| Answers.PutAnswers | fsplugin_impl.hpp:699-740 | the code of every other upload; OK means that the device has the file with mode and date; the local file goes exactly with the flag |
| Answers.ListAnswers | fsplugin_impl.hpp:422-475 | a path is listed if and only if it is a directory or a link to one and the listing succeeds; the rows are those of the entries in order, links to directories as directories |
| Answers.RootAnswers | fsplugin_impl.hpp:945-974 | the root shows the devices in state "device" as directories and warns of the others, in order, and fails exactly if the server cannot be asked |
| Safety.FetchKeepsTarget | fsplugin_impl.hpp:571-628 | while a file is replaced, every state but the last has its old entry or the complete new content; the last lacks both exactly if the date could not be set and the file was removed |
| Safety.FetchEnds | fsplugin_impl.hpp:571-628 | the code is OK exactly if every step worked; the final disk in each case |
| Safety.GetIsAllOrNothing | fsplugin_impl.hpp:505-656 | every download, if files can be removed: OK means content and date are exact and nothing else changed; otherwise no file changed, no temporary file is left, and the old copy is lost in exactly two cases |
| Safety.GetKeepsTarget | fsplugin_impl.hpp:547-628 | the same state by state for the whole operation |
| Safety.GetMovesLast | fsplugin_impl.hpp:630-655 | the device changes only in a state in which the local file is complete and stamped, and only by a flagged move that returns OK |
| Safety.GetLosesNothing | fsplugin_impl.hpp:505-656 | a move off the device, from the octets on the wire: in every state the device has the content or the local file does, with the file's date |
| Safety.CancelledGet | fsplugin_impl.hpp:583-595 | USERABORT exactly for a cancelled transfer, with the target and every other file as before |
| Safety.StoredAsRead | adbclient.hpp:522-607 | what a device that reads the transcript of an upload is told to store is what the upload counts as having stored |
| Safety.PutLosesNothing | fsplugin_impl.hpp:658-740 | in every state of an upload the local file is as it was or the device holds its content; OK means content and date arrived |
| Safety.PutForgets | fsplugin_impl.hpp:706-721 | after success and after cancellation the path's and its parent's listings are gone and no others; otherwise none |
| DeviceSafety.SetTimeIsExact | fsplugin_impl.hpp:843-924 | success means exactly the date asked for; in no state has the file any third date or other content; a device that takes only the date form will do, for the years 1 to 9999 |
| DeviceSafety.SetTimeSpares | fsplugin_impl.hpp:843-924 | no other file is touched |
| DeviceSafety.CopyKeepsSource | fsplugin_impl.hpp:1122-1187 | an on-device copy changes its source in no state, whatever fails and however the paths are spelled |
| DeviceSafety.CopyOntoItself | fsplugin_impl.hpp:1124-1133 | another spelling of the source is refused by the device |
| DeviceSafety.CopyIsExact | fsplugin_impl.hpp:1122-1187 | a copy that reports success is a file with its source's content and listed date in the place its target's path leads to, if and only if there was no directory there, however the path is spelled |
| DeviceSafety.MoveLosesNothing | fsplugin_impl.hpp:1074-1097 | in every state each file at or under the source is there or in the same place under the target |
| DeviceSafety.RenameOrMoveLosesNothing | fsplugin_impl.hpp:776-841 | the same for the one entry point of renames, moves and copies; between devices, or onto an existing target without leave, nothing happens |
| Fulfilment.DeleteRemoves | fsplugin_impl.hpp:742-745 | a deletion that reports success has left nothing there and changed nothing else; it never removes a directory |
| Fulfilment.RemoveDirRemoves | fsplugin_impl.hpp:747-750 | a removal that reports success has left nothing at or under the path and changed nothing else |
| Fulfilment.MakeDirMakes | fsplugin_impl.hpp:752-755 | after a creation that reports success the directory is there, and all there was still is |
| Fulfilment.DirectoryIsNotCopied | fsplugin_impl.hpp:1150-1160 | a directory is not copied: nothing is sent and nothing changes |
| Fulfilment.CopyGoesThrough | fsplugin_impl.hpp:1122-1187 | a file is copied if the device can, does and says nothing: content and date are at the target and the source is still there |
| Fulfilment.CopyOnSmallTree | fsplugin_impl.hpp:1122-1187 | a device for which it does: what is asked of one can be met |
| Fulfilment.MoveGoesThrough | fsplugin_impl.hpp:1074-1097 | a move likewise: all of it lies at or under the target and nothing at the source, and nothing else has changed |
| Fulfilment.RenameOrMoveGoesThrough | fsplugin_impl.hpp:776-841 | the one entry point does the one or the other, as it is asked |
| Fulfilment.GetRemovesSource | fsplugin_impl.hpp:630-655 | a download flagged as a move takes the file off the device by one rm, and is a success whatever that comes to |
| Refinement.ListedNamesFit | fsplugin_impl.hpp:478-503 | the names of any device list without slashes give every device one name that leads back to it |
| Refinement.KeyIsKey | fsplugin_impl.hpp:939-943 | every path on a device has one key, which parses back to it |
| Trees.ResolveIsCanonical | fsplugin_impl.hpp:1124-1127 | every spelling of a path leads to a place in its one spelling |
| Trees.SpellingsMeet | fsplugin_impl.hpp:1013-1021 | a trailing slash or a trailing dot leads to the same place |
| Trees.BeneathIsAncestry | adbutils.hpp:153-168 | what lies at or under a path is the path and what is in a directory that does |
| Trees.EffectIsConfined | fsplugin_impl.hpp:742-755 | a command changes nothing but what lies at or under the places its paths lead to, dates of directories aside |
| Refinement.DroppedIsEnough | fsplugin_impl.hpp:1213-1219 | what is kept in the cache after a change is out of the change's reach |
| Refinement.MutationKeeps | fsplugin_impl.hpp:1189-1211 | a command run by the plugin keeps the cache in agreement with the device, whether it succeeds or fails |
| Refinement.MoveKeeps | fsplugin_impl.hpp:1074-1097 | so does a move |
| Refinement.CopyKeeps | fsplugin_impl.hpp:1122-1187 | so does a copy with its change of date |
| Refinement.SetTimeKeeps | fsplugin_impl.hpp:843-924 | so does a change of date |
| Refinement.PutKeeps | fsplugin_impl.hpp:658-740 | so does an upload, even a cancelled one that leaves part of a file |
| Refinement.GetKeeps | fsplugin_impl.hpp:505-656 | so does a download, even one that removes its source |
| Refinement.ListKeeps | fsplugin_impl.hpp:422-475 | so does a listing, which it may add to the cache |
| Refinement.ListingIsKept | fsplugin_impl.hpp:422-475 | a listing fetched from the device is served from the cache for as long as it is live, and a failed one is not |
| Refinement.RootShowsDevices | fsplugin_impl.hpp:945-974 | the root shows exactly the devices that are ready and warns of exactly the others |
| Refinement.ShownNameIsKey | fsplugin_impl.hpp:478-484 | the name a device is shown under is the one its cache keys begin with |
| Refinement.RowsAreChildren | fsplugin_impl.hpp:1051-1067 | a right listing has exactly one row for each child of the directory, which tells its kind, size and date, and no other |
| Refinement.RunKeeps | fsplugin_impl.hpp:422-924 | after every fair run of operations each cached listing shows what the device holds |
| Refinement.HitsAreCurrent | fsplugin_impl.hpp:422-475 | after every fair run a hit shows the rows an uncached stat and listing would show now |
| Session.Perform | fsplugin_impl.hpp:410-924 | a call of a PluginCore method does to the world and the cache exactly one step of the runs that the theorems are about |
| Session.PerformAll | fsplugin_impl.hpp:410-924 | a fair run of such calls keeps the cache in agreement with the devices |
| Staleness.AgreementIsSpecial | adbutils.hpp:127-168 | for canonical keys, agreement under any name is the agreement that fair runs keep |
| Staleness.CreationIsSeen | fsplugin_impl.hpp:1213-1219 | when something new appears, the kept listings stay right if and only if no key among them, in any spelling, leads to its directory |
| Staleness.MakeDirExactly | fsplugin_impl.hpp:752-755 | after a successful mkdir -p of a missing path, in any spelling, the cache is right if and only if it keeps no listing, under any name, of the directory in which the first new one was made |
| Staleness.FailedUploadExactly | fsplugin_impl.hpp:706-719 | after a failed upload that had begun a new file the cache is right if and only if it holds no listing, under any name, of the file's directory |
| Staleness.OtherNameIsKept | fsplugin_impl.hpp:1213-1219 | what is done under one name of a device drops nothing cached under another |
| Staleness.BothNamesLead | fsplugin_impl.hpp:478-503 | the serial number and the display name both lead to the device |
| Staleness.TwoNamesGoStale | fsplugin_impl.hpp:1213-1219 | a directory made under either name makes the cache wrong if its parent is cached under the other |
| Staleness.TrailingSlashGoesStale | fsplugin_impl.hpp:1213-1219 | a directory made under a path with a trailing slash makes the cache wrong if its parent is cached |
| Cancellation.GetOverWire | fsplugin_impl.hpp:580-595 | a refused callback makes the download USERABORT with every file as before if and only if no FAIL body was being read, else a read error |
| Cancellation.PutOverWire | fsplugin_impl.hpp:698-719 | a refused callback makes the upload USERABORT with the listings forgotten if and only if no FAIL body was being read after all was sent, else a write error that forgets nothing |
| Cancellation.RefusedDownload | adbclient.hpp:483-487 | a run of the download in which a refusal is reported as a connection fault |
| Cancellation.RefusedUpload | adbclient.hpp:595-599 | a run of the upload in which a refusal is reported as a connection fault |

## Left out

- Sockets: connecting, socket options and SIGPIPE; only the results of `recv` and `send` matter.
- Wording of error messages: one text stands for each group of messages; only "cancelled" and "is it empty" are used.
- errno as a global: each call's errno is part of its result, so a progress callback that overwrites errno between a call
  and the test of it is not captured.
- Buffers: `Client.LocalFile.ReadAll` returns a sequence where the code fills part of a reused 64 KB array; the aliasing is
  not captured.
- Paths and names at the level of the operations are strings of characters below 256, one per octet.
- `Plugin.PluginCore.Receive`: takes the pieces and the outcome of the sync conversation as given; `SyncRecv.Recv` proves
  which there can be, and `Safety.GetLosesNothing` and `Cancellation.GetOverWire` join the two. Uploads at this level are
  given in the same way by `World.Upload`, and `Safety.StoredAsRead` joins them to the wire.
- `Plugin.PluginCore.ListDirectory`: the LIST and STAT conversations are given by their results, and the wording of the
  warnings about devices that are not ready is left out.
- `Device.Run`: what a phone's tools do with a path that cannot be followed is fixed in one way: rm -f and touch -c are
  silent, mv and cp complain. mkdir -p of a path that goes through a missing directory and back (`/a/../b`) makes only
  what the resolved path names.
- At the level of the operations a stat or a listing is given by its reply; that the stat behind a link names the path with
  `/.` at its end is not part of it (`Trees.SpellingsMeet` says where that leads).
- The conversation of `host:devices-l`: the framing of its answer is that of any length-prefixed message.
- Links on the device: the operations handle them, the theorems of `Refinement` and `DeviceSafety` assume none.
- Permission-denied directories that list as empty, edits of the device by others, and a change between a stat and the
  command it was made for: documented limits of the plugin, excluded by the assumptions.
- The local file system: a map from paths to contents and dates; directories, permissions and hard links are not part of
  this model.
- The mutex of the cache and threads: each cache operation is one step.
- `adbserver.hpp` (finding and starting the server), `fsplugin.cpp` (exports), user interface callbacks, the transfer
  percentage and the tables of messages: they would only add easy members.
