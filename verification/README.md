# Traccoon, modelled and proved in Dafny

Traccoon is a BitTorrent tracker in C with two companion programs: `getpeers`, which asks a
tracker for peers, and `torrentinfo`, which prints parts of a torrent file. This project models
the code that the three of them share or exchange data through, and proves what it is for:

- **Bencode** (`Bencode.dfy`, `BencodeAccess.dfy`): the scanner accepts exactly a precisely
  stated language, somewhat larger than that of BEP 3; the list and dict accessors agree with
  the tree a buffer encodes. `BencodeInt.dfy` has the scanner with its int arithmetic on every
  buffer: when it is right, when it ends, and what it does otherwise.
- **Server to client** (`Track.dfy`, `Getpeers.dfy`, `AnnounceReply.dfy`): the announce reply,
  plain (BEP 3) or compact (BEP 23), is one complete dict, and the client's loops read exactly
  the eligible peers out of it. `AnnounceReply.Exchange` is the two programs end to end.
- **Client to server** (`Encoding.dfy`, `NetText.dfy`, `Blocks.dfy`, `Comm.dfy`,
  `AnnounceLine.dfy`, `AnnounceRequest.dfy`): percent and hex codecs in place, the request line
  and where its parameters are found, the length gate.
  `AnnounceRequest.Deliver` takes hash, peer id and options from the command line of the client
  to the database key of the server.
- **Accept queue and workers** (`AcceptQueue.dfy`, `Assignment.dfy`, `Shutdown.dfy`,
  `LoadBalance.dfy`, `Worker.dfy`): the mailbox between the acceptor and the workers, one step
  per shared read or write, in every interleaving; who gets a connection; the way to the exit;
  the load-balancing record; one worker's client buffer and timeout.
- **Peer table** (`PeerTable.dfy`, `Pruning.dfy`): the upsert and the pruning as changes of a
  map, with every pattern of failing statements and clock readings, and the bounds on how long
  a peer is listed.
- **Torrent files and URLs** (`TorrentFile.dfy`, `TorrentInfo.dfy`, `PathRoundTrip.dfy`, `Url.dfy`):
  `TorrentAnnounce.AnnounceTorrent` in `TorrentAnnounce.dfy` goes from a torrent file to the
  database key of the server.

`CStrings.dfy` holds what all of them use: bytes, NUL-terminated buffers (a pointer is a buffer
and an index; reading outside the buffer gives NUL) and decimal numerals.

`dafny verify dfyconfig.toml` checks everything.

## What turned out not to hold as one might expect

- `benc_int_value` reads a one-digit integer as "no value" (`BencodeAccess.IntTreeReadBack`), so
  the client shows an interval or a port of 0 to 9 in a plain reply as -1.
- The scanner accepts more than BEP 3 (`Bencode.LooserThanBep3`).
- Lengths of 2^31 and more wrap. The scan of `l4294967285:` never ends (`BencodeInt.NeverEnds`),
  `l4294967298:aae` is taken for a word (`BencodeInt.AcceptsNoWord`). The code is sound exactly
  where no length on the way wraps (`BencodeInt.ReturnIsWord`). It ends exactly where it cannot
  come back to an offset (`BencodeInt.ReturnsExactly`): unless a length moves it back, where no
  length is 0 as an int (`BencodeInt.ReturnsUnlessStuck`).
- In a list or dict with a string that is cut off the scan looks behind the terminator, as in
  `l9:e` (`BencodeInt.ReadsBehind`, `BencodeInt.ReadsInside`); a length that is negative as an
  int makes it look in front of the buffer (`BencodeInt.ReadsInFront`).
- A tracker path or an event that contains a word the server looks for, such as `port=`, hides
  the parameter of that name (`AnnounceLine.PortFromPath`); exactly then something is not found
  in its place (`AnnounceLine.FindsAll`).
- Two spellings can share a database key although they denote different bytes
  (`TorrentKeys.OneKeyForTwo`); a parameter gets the key of its bytes exactly when its escapes
  are lower-case hex digits (`TorrentKeys.KeyOfBytes`).
- Only lower-case hex digits are decoded, contrary to section 2.1 of RFC 3986: `%2F` fails
  (`Encoding.UpperCaseFails`, `Encoding.DecodeFails`). The length gate does not look at the
  digits at all (`NetText.GateDecodes`).
- One round of updates need not make the load-balancing record minimal
  (`LoadBalance.OneRoundIsNotEnough`); when it does can be told from the record
  (`LoadBalance.OneRoundIsEnough`), and two rounds always do.
- One row per peer holds only as long as announces are serialised (`PeerTable.LookedTooEarly`,
  `PeerTable.InsertUnique`).
- A URL that has a slash, but none behind its first colon behind the credentials, makes the
  parser write through NULL (`Url.Faults`, `Url.FaultsAtPathColon`).
- Numbers of 2^31 and more change on their way into an int: an item number then names another
  item (`Limits.ULongExact`, `TorrentInfo.ItemNumberWraps`), a port or a number of wanted peers
  arrives as another one (`AnnounceLine.ArrivesExact`).

## Model

| member | source | states |
|---|---|---|
| `BencodeInt.WordReturns` | benc/benc.c:134-210 | completeness of the code: wherever a word of the language stands in a buffer that an int can index, the scanner returns its length and nothing else |
| `BencodeInt.ReturnIsWord` | benc/benc.c:134-210 | soundness of the code: a result other than -1 that stays in the buffer is the length of a word if and only if no length on the way exceeds an int |
| `BencodeInt.Recognises` | benc/benc.c:134-210 | for 0 < n <= length of the buffer: the first n bytes are a word if and only if the scanner returns n and all lengths on the way fit |
| `BencodeInt.CompoundInside` | benc/benc.c:138-180 | where the lengths fit, any result other than -1 for a list or dict lies inside the buffer and measures a tree |
| `BencodeInt.FitsReturns` | benc/benc.c:134-210 | where the lengths fit the scanner terminates, with exactly one result |
| `BencodeInt.ReturnsExactly` | benc/benc.c:134-210 | termination, on every buffer: the scanner returns if and only if no way through its loops, nested calls included, comes twice to the same offset of the same list or dict with the same parity (bytes outside the buffer read as NUL) |
| `BencodeInt.ReturnsUnlessStuck` | benc/benc.c:140-172 | told from the lengths: where no item moves the offset back, it returns if and only if no item leaves the offset where it is |
| `BencodeInt.StringExact` | benc/benc.c:195-200 | the length of a string comes out right as an int if and only if it is at most 2^31-1 |
| `BencodeInt.StuckAt` | benc/benc.c:165-172 | a loop that comes by a string whose length is 0 as an int runs forever |
| `BencodeInt.NeverEnds` | benc/benc.c:163-200 | the scan of `l4294967285:`, whatever stands before and behind it, never ends |
| `BencodeInt.TorrentNeverEnds` | getpeers/file.c:39-43 | nor does that of a file that starts `d4:infol4294967285:` |
| `BencodeInt.GoesBack` | benc/benc.c:198-200 | the string in `l4294967200:` has length -85 |
| `BencodeInt.AcceptsNoWord` | benc/benc.c:163-200 | `l4294967298:aae` is accepted in full and is no word |
| `BencodeInt.ReadsInside` | benc/benc.c:134-210 | where no item moves the offset back: the scan, however long it runs, looks at nothing behind the terminator if and only if every string it steps over ends inside the buffer, both by its length as an int |
| `BencodeInt.ReadsBehind` | benc/benc.c:163-200 | in `l9:e` it does look behind the terminator |
| `BencodeInt.ReadsInFront` | benc/benc.c:163-200 | in `l4294967200:` it looks outside the buffer, in front of it |
| `Bencode.WordFits` | benc/benc.c:194-200 | in a buffer that an int can index, every length inside a word fits |
| `Bencode.OneTreeAt` | benc/benc.c:134-210 | two trees whose encodings stand at the same place are the same tree |
| `Bencode.UniqueDecoding` | benc/benc.c:134-210 | the language is prefix-free and every word has one tree: equal concatenations have equal parts |
| `Bencode.LooserThanBep3` | benc/benc.c:138-201 | the scanner accepts `ie`, `i-e`, `i03e`, `01:a` and a dict with a key twice |
| `Bencode.EntityType` | benc/benc.c:3-20 | the digit loop and switch compute the entity kind, for every buffer |
| `Bencode.EntityLength` | benc/benc.c:134-210 | the recursive scanner, with its sums in int, on buffers where they fit: it terminates with the length of the word |
| `Bencode.DictLength` | benc/benc.c:138-162 | the dict loop likewise, with its key check and its parity check at the end |
| `Bencode.ListLength` | benc/benc.c:163-180 | the list loop likewise |
| `BencodeAccess.ChildAt` | benc/benc.c:29-36 | the k-th item of a tree stands where the walk over k entity lengths arrives, and behind the last one stands `e` |
| `BencodeAccess.ListItemOffset` | benc/benc.c:22-38 | on a measured list: the offset of the k-th child, -1 exactly when k is out of range; -1 on everything that is no list |
| `BencodeAccess.DictValueOffset` | benc/benc.c:40-68 | on a measured dict: the offset of the value of the first equal key, -1 exactly when the key is absent |
| `BencodeAccess.DictKeyOffset` | benc/benc.c:70-93 | on a measured dict: the offset of the j-th key, -1 exactly when there are not that many |
| `BencodeAccess.ValueBehindKey` | benc/benc.c:40-93 | when no earlier key is equal, the value offset is the key offset plus the length of the key entity |
| `BencodeAccess.ValueAt` | benc/benc.c:54-58 | the tree at the value offset is the value that looking the key up in the tree gives |
| `BencodeAccess.IsKeyAt` | benc/benc.c:54-55 | the length test and strncmp together decide equality of a key with the one looked for |
| `BencodeAccess.IntValue` | benc/benc.c:95-114 | the value of the integer tree at the pointer as strtol and int hold it, the default for anything else and for numerals of one character |
| `BencodeAccess.IntTreeReadBack` | benc/benc.c:109-113 | a printed integer reads back if and only if an int can hold it and it is not one of 0 to 9; those come back as the default |
| `BencodeAccess.StringLength` | benc/benc.c:116-122 | the length prefix as strtoul and int hold it, which for a string tree is the length of its payload; -1 exactly when it is no string |
| `BencodeAccess.StringDataOffset` | benc/benc.c:124-132 | at this offset the payload of the string stands |
| `Track.ReplyIsTree` | track.c:55-165 | for all rows, numwant and flags, what is sent piece by piece is the encoding of one well-formed dict |
| `Track.WriteReply` | track.c:55-165 | the whole reply, buffers and loops included, for every sequence of step results: the dict with, in order and as often as they come, the rows reached whose address or peer id is another than the client's |
| `Track.PeersAre` | track.c:72-98 | which rows are named, by their places: of those that the query reaches before it ends, fails or is enough, every one whose ip or peer id differs from the client's, and no other, in order |
| `Track.NamedExactly` | track.c:94-98 | a row that the query reaches is named if and only if its ip differs or its peer id differs |
| `Track.PushRows` | track.c:72-148 | the row loop: stops at numwant, at the end and at a failure; its buffers of 1024 bytes are never exceeded |
| `Track.PushRow` | track.c:86-146 | what one row adds to the list, to the IPv4 records and to the IPv6 records, the client's own row nothing |
| `Track.PushCompact` | track.c:111-145 | address bytes and big-endian port go to the cursor of their family, which moves by 6 or 18 |
| `Track.PeerTextFits` | track.c:101-110 | a peer whose row can have been stored is printed without being cut off by snprintf |
| `Track.CompactTail` | track.c:151-162 | the length-prefixed record strings, the IPv6 key only if there are IPv6 records |
| `Track.ReplyShort` | track.c:55-165 | no reply is longer than 8000 bytes |
| `Track.Announce` | track.c:28-165 | every outcome of the torrent query leads to one complete bencoded dict |
| `Track.FailureText` | track.c:28-53 | the literal failure texts are encodings of a dict with the reason |
| `Getpeers.ReadResponse` | getpeers/getpeers.c:269-377 | the reader, walking on offsets, sees what looking keys up in the tree gives, branch by branch |
| `Getpeers.ReadSection` | getpeers/getpeers.c:311-377 | peer list, compact string, a compact string of bad length, or unreadable |
| `Getpeers.ReadList` | getpeers/getpeers.c:314-344 | the item loop visits every item once and in order |
| `Getpeers.ReadPeer` | getpeers/getpeers.c:320-341 | ip, port and optional peer id of one item, or the message for an invalid or incomplete one |
| `Getpeers.ReadRecords` | getpeers/getpeers.c:360-371 | the records of six bytes, in order |
| `AnnounceReply.ReplyReadBack` | getpeers/getpeers.c:293-377 | reading any reply gives back the interval (0 to 9 as -1) and exactly the eligible peers in order: in full form with ip, port (0 to 9 as -1) and peer id unless suppressed, in compact form the IPv4 addresses and 16-bit ports |
| `AnnounceReply.RecordsReadBack` | getpeers/getpeers.c:360-371 | cutting the compact string into records undoes putting it together |
| `AnnounceReply.Port16ReadBack` | getpeers/getpeers.c:365-366 | ntohs undoes htons on the low 16 bits |
| `AnnounceReply.SixReadBack` | track.c:126-162 | a compact reply has a string of IPv6 peers exactly when there are any, and its records of 18 bytes are their addresses and, high byte first, the low 16 bits of their ports, in order |
| `AnnounceReply.CountsReadBack` | getpeers/getpeers.c:296-309 | a reply with both keys is printed with the number under "complete" as complete and the one under "incomplete" as incomplete |
| `AnnounceReply.PeerReadBack` | getpeers/getpeers.c:324-341 | one printed peer dict reads back |
| `AnnounceReply.FailureReadBack` | getpeers/getpeers.c:282-291 | a failure reply reads back as its reason |
| `AnnounceReply.Exchange` | track.c:28-165 | server to client in one call: what the reader makes of the bytes the writer sends |
| `Encoding.CharIndex` | encoding.c:3-14 | the index of the first occurrence, -1 exactly when there is none |
| `Encoding.NonReserved` | encoding.c:93 | the table holds exactly the unreserved characters of section 2.3 of RFC 3986 |
| `Encoding.DestructiveURLDecode` | encoding.c:16-42 | in place: the pure decoding in front, the terminator, the old bytes behind; or -1 and the bytes decoded so far |
| `Encoding.DecodeFails` | encoding.c:25-34 | decoding fails exactly when the decoder comes by an escape with two following bytes that are not both lower-case hex digits |
| `Encoding.UpperCaseFails` | encoding.c:17-34 | any text that starts `%2F` fails to decode |
| `Encoding.UrlEncodeChars` | encoding.c:101-111 | an encoded text consists of unreserved characters and `%` only |
| `Encoding.UrlEncode` | encoding.c:101-111 | an encoded text has between one and three times as many characters as there are bytes: 20 to 60 for a hash |
| `Encoding.UrlRoundTrip` | encoding.c:90-119 | decoding the percent-encoding of any bytes, NUL and `%` included, gives them back |
| `Encoding.HashEncodeURL` | encoding.c:90-119 | encodes the first 20 bytes in place and copies as strncpy does |
| `Encoding.HexRoundTrip` | encoding.c:70-88 | hex-decoding a hex-encoding gives the bytes back |
| `Encoding.HexReverse` | encoding.c:44-68 | hex-encoding what an even number of lower-case hex digits decode to gives the digits back |
| `Encoding.DestructiveHexDecode` | encoding.c:44-68 | in place, with the bytes decoded so far left in front on failure; -1 exactly on an odd length or a bad digit |
| `Encoding.HashEncodeHex` | encoding.c:70-88 | 40 digits and a NUL over the first 41 bytes, or nothing and -1 for a short buffer |
| `TorrentKeys.SameKey` | track.c:16-25 | two parameters that pass the length gate and whose escapes are lower-case hex digits leave the same key in the field if and only if they denote the same bytes |
| `TorrentKeys.KeyOfBytes` | track.c:16-25 | a parameter that passes the gate gets the key of the bytes it denotes if and only if it is so spelled |
| `TorrentKeys.OneKeyForTwo` | track.c:16-25 | 19 plain bytes and a cut-off escape: two such parameters pass the gate, denote different bytes and get one key |
| `Encoding.TorrentKey` | track.c:16-25 | the key is always 40 lower-case hex digits, of the decoded hash when it decodes |
| `NetText.TextAfter` | neth.c:15-25 | behind the first occurrence, NULL exactly when there is none |
| `NetText.HttpParamLength` | neth.c:53-58 | the distance to the first `&`, space or end |
| `NetText.DecodedStrlen` | neth.c:36-44 | the counting loop, which skips escapes without looking at their digits |
| `NetText.GateBound` | comm.c:67-73 | a parameter that passes the length gate has at most 60 bytes |
| `NetText.GateDecodes` | comm.c:67-73 | a parameter that passes the gate decodes later, to exactly 20 bytes, if and only if each of its escapes is spelled with two lower-case hex digits inside it |
| `Blocks.BlockFinds` | neth.c:15-25 | in a text, a separator, a name, `=` and more text, strstr finds a word with one `=` in the first text, else at the name if that ends in it, else behind |
| `Blocks.FoundAt` | neth.c:15-25 | in a text of such blocks, textAfter finds the first name that ends in the word if and only if no free text in front of that name contains the word |
| `Blocks.FoundSomewhere` | neth.c:15-25 | the word occurs if and only if a free text contains it or a name ends in it, with the right text behind |
| `Comm.CopyParam` | comm.c:71-73 | the strncpy into a zeroed field of 61 bytes: the parameter fits and stays terminated |
| `Comm.EventLetters` | comm.c:51-65 | started is `sta` or `coa`, stopped `sto` or `coo`, completed `stm` or `com`; all else is no event |
| `Comm.EventNames` | comm.c:51-65 | the names "started", "stopped" and "completed" mean these events |
| `Comm.SignedStands` | comm.c:74-81 | blanks, a sign and digits are read as the number they write |
| `Comm.NoNumber` | comm.c:74-81 | where neither a blank nor a sign nor a digit stands, 0 is read |
| `Comm.ParseMeans` | comm.c:31-81 | of an accepted announce: event by its letters, numbers by their digits, a wanted number outside 1 to 50 as 50, absent ones as their defaults, each flag set exactly when its text occurs |
| `Comm.UnfinishedWaits` | comm.c:18-30 | an announce whose line has not ended is neither answered nor refused yet |
| `Comm.ParseAnnounce` | comm.c:31-101 | the request line of an announce: exactly when parameters are missing or out of bounds, or the options with their meaning and both fields |
| `Comm.ReadLine` | comm.c:28-30 | terminates the request line at the first space, fails exactly when there is none |
| `Comm.ScrapeLine` | comm.c:131-152 | global scrape, scrape of one key, or a parameter that does not pass the gate |
| `Comm.ParseSocket` | comm.c:10-178 | which request is answered, and when the connection counts as handled, at every iteration count: a request that can still become complete is left open until its client has had its turns |
| `AnnounceRequest.StringMerge` | getpeers/string.c:3-24 | the concatenation and a NUL in a buffer of exactly that size |
| `AnnounceRequest.PathIsLine` | getpeers/getpeers.c:225-235 | the merged path is "announce" and the line of named values the server parses |
| `AnnounceLine.FindsAll` | comm.c:31-48 | textAfter finds every parameter where the client put it, no `left=`, and the flags as they were set, if and only if the tracker's path and the options contain none of these words in front of its place |
| `AnnounceLine.OwnParameter` | comm.c:31-48 | so a tracker path with a parameter of its own, such as `?passkey=abc`, is read correctly |
| `AnnounceLine.PortFromPath` | comm.c:33 | while behind `?port=1` in the tracker's path the server takes 1 for the port, whichever port is sent |
| `AnnounceLine.ParsesBack` | comm.c:28-101 | with such a path the server reads the hash and the peer id as they were written, and the options as strtoul and an int hold them |
| `AnnounceLine.SentMeans` | comm.c:51-81 | the options sent mean what the client was given: event, port and wanted number by name and value, with the defaults 6969 and 50 |
| `AnnounceLine.ArrivesExact` | comm.c:74-81 | a number written in digits arrives as what it says if and only if it is at most 2^31-1 |
| `AnnounceRequest.EncodeHash` | getpeers/getpeers.c:202-204 | the hash field: 40 hex digits in, the percent-encoding of the 20 bytes out |
| `AnnounceRequest.BuildRequest` | getpeers/net.c:114-124 | the request text, put together by two merges |
| `AnnounceRequest.RequestIsHttp` | getpeers/net.c:114-124 | that text, spelled out: request line, host and port, and the fixed headers |
| `AnnounceRequest.UsableExactly` | comm.c:18-48 | the server reads the line that was sent and finds everything in its place in it if and only if the path and the options contain no space and none of the words looked for |
| `AnnounceRequest.OtherPath` | comm.c:18-20 | a request to a path that does not start with "announce" is no announce |
| `AnnounceRequest.Deliver` | getpeers/getpeers.c:202-235 | client to server in one call: 40 digits and a peer id arrive as the same 40 digits and the same encoded id, and the event, port and wanted number as what they say, if the path is usable; a request of 1023 bytes or more is not read |
| `AcceptQueue.InitInv` | traccoon.c:129-165 | the invariant holds when the acceptor enters its loop, wherever in their loops the workers then are and whatever the record has become |
| `AcceptQueue.MainKeeps` | traccoon.c:206-232 | every single read or write of the acceptor keeps it, up to the last sweep |
| `AcceptQueue.WorkerKeeps` | thread.c:68-108 | every single read or write of a worker keeps it, the shutdown included |
| `AcceptQueue.AssignedIsUntaken` | thread.c:71-101 | a slot that a worker finds assigned to it holds a connection nobody has taken |
| `AcceptQueue.NeverReassigns` | thread.c:191-194 | the branch that passes waiting connections on to another worker is unreachable |
| `AcceptQueue.NothingLeft` | traccoon.c:305-310 | after the joins every slot is empty |
| `AcceptQueue.StepKeeps` | traccoon.c:206-232 | accepted = waiting + adopted + closed from the queue, adopted = held + closed by workers, after every step |
| `AcceptQueue.AdoptedOnce` | thread.c:70-101 | in every interleaving every accepted connection is adopted at most once and closed at most once, and it is in exactly one place |
| `AcceptQueue.ClosedOnce` | traccoon.c:293-310 | in every interleaving, once the program exits, each accepted connection has been closed exactly once |
| `AcceptQueue.LaziestIsWorker` | thread.c:103-108 | LAZIEST_WORKER names a worker in every reachable state, although its halves are written separately |
| `AcceptQueue.UpdatesRecord` | thread.c:103-108 | undisturbed, the separate reads and writes of a worker amount to one update of the record |
| `Assignment.AssignedAsRecorded` | traccoon.c:213-224 | in every run, when the slot of an accepted connection gets assigned, it is to the worker that LAZIEST_WORKER named at some state between; if the record was minimal then, nobody had fewer connections than that worker |
| `Assignment.PassAlone` | thread.c:70-108 | undisturbed, the single reads and writes of a pass amount to: the worker takes over exactly the connections assigned to it, clears their slots, and updates the record with its new count |
| `Assignment.Finishes` | thread.c:146-150 | a finished client is closed by the worker that has it, and nothing else changes |
| `Assignment.Relieved` | thread.c:162-165 | a leaving worker named by the record makes room in it for whoever updates it next |
| `Assignment.WaitsNoLonger` | thread.c:162-169 | the wait to be relieved ends at once for a worker that the record does not name, and for one that it names with the next look at killserver |
| `Shutdown.CanExit` | traccoon.c:293-310 | no deadlock: from every state that any run comes to, some continuation leads to the exit |
| `Shutdown.KeeperWorks` | thread.c:70-101 | a queue without a free slot is never stuck: whoever has its first slot is a worker in its loop |
| `Shutdown.LeaverMoves` | thread.c:162-200 | once killserver is set, every step of a worker that is to leave, taken with a connection it still holds, brings its end nearer; the wait to be relieved is left too |
| `LoadBalance.BecomesHonest` | thread.c:103-108 | once the worker in the record has had its turn, the record says how many clients its worker has |
| `LoadBalance.HonestStays` | thread.c:103-108 | an honest record stays honest and never names a busier worker than any that had its turn |
| `LoadBalance.Converges` | thread.c:103-108 | from any record that names a worker, after two rounds, with anything before and after them, the record names a worker with the fewest clients and stores that number |
| `LoadBalance.OneRoundIsEnough` | thread.c:103-108 | every order of one round makes the record minimal if and only if, before it, somebody has fewer clients than the record says or its worker is among those with the fewest |
| `LoadBalance.OneRoundIsNotEnough` | traccoon.c:164-165 | the record the program starts with, for two workers with 5 and 3 clients, is not minimal after one round |
| `Worker.WorkerThread.CountActive` | thread.c:32-38 | the count is the number of connections in the buffer |
| `Worker.WorkerThread.Grow` | thread.c:51-66 | growing keeps every client where it is and adds free entries |
| `Worker.WorkerThread.FindFree` | thread.c:75-80 | everything below the search cursor is taken, and it stops at a free entry or at the end |
| `Worker.WorkerThread.Adopt` | thread.c:68-101 | no client is overwritten; the buffer holds what it held and what was offered; the count stays exact |
| `Worker.WorkerThread.CountIterations` | thread.c:114-122 | every connection counts one more pass |
| `Worker.WorkerThread.Serve` | thread.c:130-151 | closed are exactly the connections that are done with and those past MAX_RECV_ITER; every other one stays as it is |
| `Worker.WorkerThread.Pass` | thread.c:31-157 | a whole pass, entry by entry: offered connections into free entries, nobody moved, closed exactly who is done with or has been through 200 passes, the record updated with the exact count |
| `Worker.WorkerThread.CloseAll` | thread.c:172-180 | at the end every connection held is closed |
| `Worker.WorkerThread.Run` | thread.c:31-157 | any number of passes: no connection is lost; each one that was there at the start or was adopted more than 200 passes ago is closed; and where nobody is done with, each one adopted in the last 200 passes is still there |
| `Worker.StaysOpen` | thread.c:137-146 | in every run, a connection that is not done with stays in its entry for 200 passes |
| `Worker.TimesOut` | thread.c:137-146 | and is closed in the next one |
| `PeerTable.UpdateInView` | statements.h:6 | updating by the id found changes exactly the entry of that torrent and peer id |
| `PeerTable.DeleteInView` | statements.h:7 | pruning leaves exactly the entries seen at or after the given time |
| `PeerTable.InsertUnique` | statements.h:4 | inserting keeps one row per torrent and peer id if and only if the peer is not in the table at that moment |
| `PeerTable.LookedTooEarly` | db.c:237-254 | two workers that both query before either inserts leave the peer in the table twice |
| `PeerTable.NamedPeers` | track.c:86-98 | every peer a reply names is in the table under this torrent and is not the client |
| `PeerTable.Database.AddPeer` | db.c:77-160 | adds the entry with `left` 0 and no status, or leaves the table alone |
| `PeerTable.Database.UpdateRow` | db.c:267-362 | brings the row found up to date, then counts a completed download, by one and for this torrent only; what each failure leaves behind and returns |
| `PeerTable.Database.UpdatePeer` | db.c:210-362 | the recursive upsert, for every combination of working and failing statements: it succeeds exactly when those it comes to work; then left, status and last-seen of exactly this entry are new and its first address stays; which of three tables each failure leaves; it re-enters at most once |
| `PeerTable.Database.PrunePeers` | db.c:162-208 | exactly when clock and statement work, all entries older than the interval go, and no other |
| `PeerTable.Database.AnswerAnnounce` | track.c:55-168 | reply and update together: the reply shows the table before the announce, and names a row it reaches exactly when address or peer id differs from the client's |
| `Pruning.AcceptLoop.ComeRound` | traccoon.c:234-245 | prunes when three intervals have passed since the last prune and at no other time; when clock and statement work, exactly those go who were last seen more than three intervals before |
| `Pruning.AcceptLoop.Prune` | traccoon.c:241-245 | the prune itself, by its own reading of the clock |
| `Pruning.AcceptLoop.Announces` | db.c:210-362 | an announce keeps what is known about everybody's lifetime |
| `Pruning.AcceptLoop.Run` | traccoon.c:234-245 | for every run and every pattern of failures: nobody leaves within 3 intervals of an announce that worked; and if every look at the clock and every prune of the run works, nobody who announced since its start is still listed when the loop looks at the clock more than 6 intervals later |
| `TorrentFile.ReadTracker` | getpeers/file.c:45-57 | exactly the payload of the first "announce" value, nothing exactly when it is missing or no string |
| `TorrentFile.ReadInfo` | getpeers/file.c:59-71 | what is hashed is exactly the raw encoding of the first "info" value, nothing exactly when it is missing or no dict |
| `TorrentFile.TorrentReadBack` | getpeers/file.c:39-71 | of a file made of a tracker address, an info dict and anything else, the address and the encoding of that dict are read back |
| `TorrentFile.WriteHash` | getpeers/file.c:72-76 | the 40 hex digits of the digest and a NUL |
| `TorrentFile.ReadTorrentFile` | getpeers/file.c:39-78 | when the call succeeds, and what tracker and hash then are |
| `TorrentAnnounce.ParseTracker` | getpeers/getpeers.c:206-222 | the tracker address of the file, copied into a buffer and taken apart there |
| `TorrentAnnounce.AnnounceTorrent` | getpeers/getpeers.c:185-257 | from the torrent file to the server in one call: the request is sent exactly when there is an http tracker and an info dict; if its path is usable the server then files the client under the hex digits of the hash of exactly that dict |
| `TorrentInfo.StrTok` | torrentinfo/torrentinfo.c:246-279 | one call after the other, strtok delivers the non-empty stretches between dots |
| `TorrentInfo.PathConcat` | torrentinfo/torrentinfo.c:245-281 | the path "a.b" leads where "b" leads from the node at "a" |
| `PathRoundTrip.PathFinds` | torrentinfo/torrentinfo.c:245-281 | for every way through a tree, by item numbers and dict keys without dots, the path that spells it is resolved to the node at its end |
| `Limits.ULongExact` | torrentinfo/torrentinfo.c:256-257 | an item number reaches the list as written if and only if it is below 2^31; likewise a string length and a number in a request |
| `TorrentInfo.ItemNumberWraps` | torrentinfo/torrentinfo.c:256-257 | the number 4294967296 names item 0 |
| `TorrentInfo.Descend` | torrentinfo/torrentinfo.c:248-278 | one token: the offset moves to the child in the tree, or stays |
| `TorrentInfo.Resolve` | torrentinfo/torrentinfo.c:245-281 | the offset ends at the node that the fold of tree lookups over the tokens leads to, or stays at 0 in a file that does not begin with a whole entity |
| `Url.PrintReadsBack` | getpeers/net.c:23-66 | a printed URL reads back as its components if and only if no component contains a delimiter that is looked for before its own end |
| `Url.SplitPrints` | getpeers/net.c:23-66 | what is read out of a URL prints as that URL |
| `Url.NeedsSlash` | getpeers/net.c:47-63 | the status is -1 behind "://" exactly when there is no slash in the rest |
| `Url.Faults` | getpeers/net.c:47-60 | NULL is written through if and only if the part behind the credentials has a slash and a colon, but no slash behind its first colon |
| `Url.ColonInPath` | getpeers/net.c:47-60 | every address with its first colon behind its last slash does that |
| `Url.FaultsAtPathColon` | getpeers/net.c:47-60 | for example `http://a/b:c` |
| `Url.StrChr` | getpeers/net.c:39-58 | the search on the partly overwritten buffer finds the first occurrence in the text that stands there |
| `Url.ParseAuthority` | getpeers/net.c:45-65 | host, port and path as C strings in the buffer |
| `Url.ParseUrlDestructive` | getpeers/net.c:23-66 | in place: every pointer of the result is the C string of its component, and NULL is written through exactly when `Url.Split` says so |

## Left out

- Sockets: `select`, `send`, `recv`, partial sends, HTTP headers, `getaddrinfo` and signals. Output is the sequence of bytes sent, readiness is a parameter, and a `recv` that fails is not modelled.
- SQLite: a prepared statement is one atomic step that takes effect or fails, which of the two is a parameter, and so is what the clock shows, as long as it only moves forward; result codes other than DONE, ROW, BUSY and ERROR, ids beyond 32 bits, and foreign keys are not part of this model.
- SHA1, `inet_pton` and `inet_ntop` are functions that are parameters, or addresses are given as bytes; the random peer id is a parameter.
- `strtol` and `strtoul` saturate at 64 bits and are cut to 32, as the code does on platforms with a 32-bit int and a 64-bit long; adding to a saturated `long` is taken to wrap. Buffers are taken to be at most 2^31-1 bytes long. Times and the counters of `traccoon.c`, `thread.c` and `db.c` are unbounded integers.
- NULL arguments of the bencode functions and the debug argument `initial_offset` of `benc_entity_length`, which only printing uses.
- Failures of `malloc` and `realloc`, of thread creation and of opening a database: those paths leave without cleaning up, and conservation of connections does not hold on them.
- The reads with which a worker counts the connections waiting for it: they only size its buffer, so `AcceptQueue` leaves them out and `Worker` takes any number for them.
- `AcceptQueue` is a transition system over values and not over objects: what it models is the order of single reads and writes of several threads, which methods on shared objects would hide. Memory is sequentially consistent in it. That a run gets to its exit is proved as a possibility; that a fair scheduler leads there is not.
- The reply to a scrape: its text puts the hash behind "files" without opening a dict and is not well-formed bencode; only the parsing of the request is modelled.
- Peer rows under statement-level interleaving of several workers: one row per peer is proved for announces that do not overlap, and refuted with two that do.
- The bytes behind the terminator of the hash buffer of a scrape are uninitialised in the program and NUL here.
- A reply's `peers_ipv6` string is written but no program reads it, so nothing is said about reading it back.
- `handle_bencoded_node`, the printing of a torrent file; option parsing, usage texts, `callbacks.c`, `createEmptyDatabase` and the test programs.
- `http_get` beyond the text of the request: connecting, sending and collecting the response. The reader starts behind the headers.
- Bencode.EntityLength: for buffers in which the lengths on the way fit an int. `BencodeInt` says what the code does on the others. Where it calls itself without end the model runs forever and the program runs out of stack.
- Bencode.DictLength: as `Bencode.EntityLength`.
- Bencode.ListLength: as `Bencode.EntityLength`.
- BencodeAccess.ListItemOffset: for a list that the scanner has measured. On one that it rejects the loop adds -1 to its offset and has no meaning to state.
- BencodeAccess.DictValueOffset: likewise for a dict.
- BencodeAccess.DictKeyOffset: likewise for a dict.
- Getpeers.ReadResponse: takes a body whose dict the scanner can measure and whose peers have string ids and addresses, which the code does not check: it would hand the length -1 to fwrite. Every reply of the server is such a body.
- Getpeers.ReadSection: as `Getpeers.ReadResponse`.
- Getpeers.ReadList: as `Getpeers.ReadResponse`.
- Getpeers.ReadPeer: as `Getpeers.ReadResponse`.
- TorrentFile.ReadTorrentFile: for files in which the lengths on the way fit an int; `BencodeInt.TorrentNeverEnds` is one on which it hangs.
- AnnounceRequest.Deliver: what arrives is stated for usable paths. With any other, `AnnounceRequest.UsableExactly` says, the line is cut off or something is found in another place; there it can still have the right value by chance.
- TorrentAnnounce.AnnounceTorrent: for files as in `TorrentFile.ReadTorrentFile`; what arrives is stated for usable tracker paths, as in `AnnounceRequest.Deliver`.
- TorrentInfo.Resolve: for a file that does not begin with a list or dict that is cut short; the accessors would walk on behind it.
