# Replicated session state for a servlet cluster, in Dafny

This project models the core of `cs5300proj1b`: a servlet cluster in which every
instance keeps an in-memory session table, stores one backup copy of each
session on a peer, and learns about its peers through a gossiped membership
view. Instances talk over a small UDP request protocol.

The model covers five parts of that core:

- **The session table** (`Sessions`). It covers the session record (id,
  version, message, expiry), its `id_version_message` byte form, and the
  process-wide table. The table's accessors are fenced by version, and its
  counter hands out session numbers. It also covers one pass of the
  expiry sweep.
- **Replication** (`Replication`). It covers which servers `readSession` and
  `writeSession` ask, the local read path, and the local store after a write.
- **The membership view** (`Membership`, `Gossip`). The view is a set of peer
  addresses that never holds the null address `0.0.0.0` or the server's own
  address. The model covers its `_`-joined text form, merging a peer's text
  form, down-sampling to 5 members, the list published to the bootstrap
  directory, and one gossip round.
- **The cookie value codec** (`Cookies`). It covers `sid_version_ip1_ip2...`
  and replacing its version field.
- **The request protocol**. On the client side (`NetUtils`) it covers the
  frame layout, call-id allocation, and `sendRequest`'s walk over candidate
  servers, with a receive buffer that is reused across datagrams. On the
  server side (`RpcListener`) it covers the handlers, the dispatch, and the
  handling of one received datagram.

Supporting modules model Java's `String.split` with and without a limit
(`Text`), 32-bit ints with `"" + n` and `Integer.parseInt` (`JavaInt`), and
`getBytes`/`new String` plus big-endian `ByteBuffer` ints and shorts
(`Bytes`).

Mutable state is modelled as Dafny classes:

- `SessionTable` holds the static map and session counter.
- `SessionState` holds one record.
- `View` holds the static view set.
- `Caller` holds the static call-id counter.

Each method states its whole new state and keeps the class invariant
(`Valid`). The pure parts are functions, and the properties the code promises
are lemmas about them. The network is a parameter:

- `socketOk` says whether a socket could be opened.
- `env(i)` says what happens after the frame is sent to the `i`-th candidate:
  an I/O error, or the datagrams that arrive before the receive times out.

Name resolution is the parameter `resolves`. Times are integers in
milliseconds, passed as `now`/`curTime`.

Where the code departs from its own documentation, the model follows the code:

- `readSession` takes the record out of the local table with no version check
  when this server is listed (`removeSession(id)`, not `removeSession(id, version)`).
- `sendRequest` does not stop at the first server that answers. It asks every
  candidate, and the answer is that of the last one that answered
  (`NetUtils.LastAnswerWins`).
- The wait loop accepts a datagram whose call id matches **or** whose opcode is
  REPLY. So a REPLY to an earlier call is accepted (`NetUtils.Accepts`).
- The request buffer is allocated for all of the arguments. Arguments longer
  than 506 bytes are not cut from the frame. Only the first 506 bytes are
  copied, and the rest of the frame stays zero. The listener then reads at
  most 512 bytes of it.
- When no server answers a read, `fromBytes(null)` throws. The read therefore
  ends in an exception, not in "not found" (`Replication.ReadResult.Threw`).
- Some malformed requests make the listener throw, which ends its loop
  (`None` in `RpcListener`):
  - a datagram shorter than 6 bytes;
  - a write whose version field is not a number;
  - a read whose arguments split into no fields at all, such as `_`.

## Model

| member | source | states |
|---|---|---|
| Sessions.SessionState.constructor | cs5300proj1b/src/servlet/SessionState.java:26-30 | a record with the given id, version and message, and no expiry yet |
| Sessions.SessionTable.constructor | cs5300proj1b/src/servlet/SessionState.java:10-12 | the table starts empty and the session counter at 0 |
| Sessions.SessionState.Numbered | cs5300proj1b/src/servlet/SessionState.java:20-24 | the id of a numbered record is `<number>/<server id>` |
| Sessions.IdParts | cs5300proj1b/src/servlet/SessionState.java:43-54 | `getSessionNo` and `getServerID` give back the number and server id an id was built from |
| Sessions.SessionNoOf | cs5300proj1b/src/servlet/SessionState.java:43-46 | the session number is the text before the first `/`, parsed |
| Sessions.ServerIdOf | cs5300proj1b/src/servlet/SessionState.java:51-54 | the server id is the text between the first and the second `/`; an id without `/` throws |
| Sessions.MakeIdInjective | cs5300proj1b/src/servlet/SessionState.java:21 | different (number, server) pairs give different ids |
| JavaInt.DecimalInjective | cs5300proj1b/src/servlet/SessionState.java:21 | different ints have different decimal forms, so the number part of an id names one session number |
| Sessions.SessionState.IncrementVersion | cs5300proj1b/src/servlet/SessionState.java:65-67 | the version goes up by one with 32-bit wrap-around; message and expiry are unchanged |
| JavaInt.Inc | cs5300proj1b/src/servlet/SessionState.java:66 | the result is the argument plus one modulo 2^32, and larger unless the argument is the largest int |
| Sessions.SessionState.SetMessage | cs5300proj1b/src/servlet/SessionState.java:79-81 | only the message changes |
| Sessions.SessionState.ToBytes | cs5300proj1b/src/servlet/SessionState.java:94-98 | for one-byte text and an id without `_`, splitting the decoded bytes on the first two `_` gives back id, version and message |
| Sessions.Parse | cs5300proj1b/src/servlet/SessionState.java:103-113 | parses exactly when the text has two `_`, the part before the first yields a number and a server id, and the part between parses; then the message is everything after the second `_` |
| Sessions.FromBytes | cs5300proj1b/src/servlet/SessionState.java:103-113 | a new record exactly when the byte form parses (split limit 3, id split on `/`, two ints); otherwise the exception, as `None` |
| Sessions.ParseSerialized | cs5300proj1b/src/servlet/SessionState.java:94-113 | `fromBytes(toBytes(s))` gives back number, server, version and message, even for an empty message or one holding `_` |
| Sessions.ToBytesRoundTrip | cs5300proj1b/src/servlet/SessionState.java:94-113 | the same round trip stated on a record, which gets back its own id |
| JavaInt.ParseDecimal | cs5300proj1b/src/servlet/SessionState.java:96-111 | `Integer.parseInt("" + n) == n` for every 32-bit int |
| Bytes.DecodeEncode | cs5300proj1b/src/servlet/SessionState.java:97-105 | `new String(s.getBytes())` is `s` for one-byte text |
| Bytes.EncodeDecode | cs5300proj1b/src/servlet/NetUtils.java:71-75 | any reply bytes decode to text whose bytes are the reply |
| Text.SplitLimitThree | cs5300proj1b/src/servlet/SessionState.java:105 | `split("_", 3)` of `a_b_c` is `[a, b, c]` when `a` and `b` hold no `_`, whatever `c` holds |
| Text.SplitLimitThreeAt | cs5300proj1b/src/servlet/SessionState.java:105 | `split("_", 3)` by positions: before the first `_`, between the first and second, and all the rest |
| Text.SplitAt | cs5300proj1b/src/servlet/SessionState.java:44 | `split` by positions: the first field ends at the first delimiter, the second at the next |
| Sessions.SessionTable.AddSession | cs5300proj1b/src/servlet/SessionState.java:120-123 | the record gets expiry `now + expLength` and replaces whatever was stored under its id; every other key is unchanged |
| Sessions.SessionTable.NewSession | cs5300proj1b/src/servlet/SessionState.java:131-137 | a fresh record `n/ownIP`, version 1, the message, not stored; the counter moves to `n + 1` (wrapping); the table is unchanged |
| Sessions.SessionTable.RemoveSession | cs5300proj1b/src/servlet/SessionState.java:144-146 | answers the stored record or null; the id is gone afterwards |
| Sessions.SessionTable.RemoveSessionVersion | cs5300proj1b/src/servlet/SessionState.java:147-156 | stored at that version: the record is answered and removed; otherwise null and the table unchanged |
| Sessions.SessionTable.GetSession | cs5300proj1b/src/servlet/SessionState.java:163-165 | answers the stored record or null |
| Sessions.SessionTable.GetSessionVersion | cs5300proj1b/src/servlet/SessionState.java:166-174 | non-null exactly when the id is stored at that version, and then the stored record |
| Sessions.SessionTable.GetSessionIds | cs5300proj1b/src/servlet/SessionState.java:180-184 | every stored id exactly once |
| Seqs.ToSeq | cs5300proj1b/src/servlet/SessionState.java:180-184 | `toArray` of a set lists every member exactly once |
| Sessions.SessionTable.Sweep | cs5300proj1b/src/servlet/SessionState.java:283-297 | afterwards the table holds exactly the entries that had not expired at `curTime`, untouched |
| Sessions.SessionTable.SweepOne | cs5300proj1b/src/servlet/SessionState.java:291-296 | looking at one more id removes its record exactly when it is stored and expired |
| Sessions.SweptAll | cs5300proj1b/src/servlet/SessionState.java:291-297 | once every stored id has been looked at, the entries kept are exactly the unexpired ones |
| Replication.ReadSession | cs5300proj1b/src/servlet/SessionState.java:194-216 | own address listed: take the record out of the local table whatever its version; otherwise ask the listed servers and leave the table alone, the call id moves on when a socket opens, and exactly the timed-out servers leave the view; a record, holding the parsed id, version and message, only when the answer parses, else an exception |
| Replication.ReadCandidates | cs5300proj1b/src/servlet/SessionState.java:199-213 | the servers asked are the listed ones in order, without the null address and names that do not resolve |
| Replication.ReadTargets | cs5300proj1b/src/servlet/SessionState.java:199-213 | no more servers than listed, each listed, not the null address, and resolving |
| Replication.ReadTargetsMembers | cs5300proj1b/src/servlet/SessionState.java:199-210 | a server is asked exactly when it is listed, is not the null address, and resolves |
| Replication.WriteCandidates | cs5300proj1b/src/servlet/SessionState.java:229-249 | the cookie's servers first, then the view's members not already listed, in the view's order |
| Replication.PreferredCandidates | cs5300proj1b/src/servlet/SessionState.java:230-243 | the loop over the cookie's servers keeps them in order, skipping this server, the null address and names that do not resolve |
| Replication.OtherCandidates | cs5300proj1b/src/servlet/SessionState.java:245-249 | the loop over the view appends the members not yet listed |
| Replication.PreferredTargets | cs5300proj1b/src/servlet/SessionState.java:230-243 | each server tried first is a cookie server other than this one and the null address, and resolves |
| Replication.Others | cs5300proj1b/src/servlet/SessionState.java:245-249 | each appended member is from the view and not already listed |
| Replication.WriteTargets | cs5300proj1b/src/servlet/SessionState.java:229-249 | at most the cookie's servers plus the view's members; each is a view member or an admissible cookie server |
| Replication.PreferredMembers | cs5300proj1b/src/servlet/SessionState.java:230-243 | a cookie server is tried first exactly when it is not this server, not the null address, and resolves |
| Replication.WriteTargetsMembers | cs5300proj1b/src/servlet/SessionState.java:229-249 | the servers asked are the preferred ones and the view's members, never this server or the null address, with no view member twice |
| Replication.WriteSession | cs5300proj1b/src/servlet/SessionState.java:227-258 | answers `[ownIP, address that took the copy or 0.0.0.0]` and stores the record locally with the local expiry; the call id moves on when a socket opens, and exactly the timed-out servers leave the view |
| Membership.View.constructor | cs5300proj1b/src/servlet/View.java:14 | the view starts empty |
| Membership.Admit | cs5300proj1b/src/servlet/View.java:42-48 | an address other than the null and own addresses is a member afterwards; nothing else changes |
| Membership.View.AddAddr | cs5300proj1b/src/servlet/View.java:42-48 | the null and own addresses answer true and change nothing; any other answers whether it was new; the exclusions stay out |
| Membership.AdmitTwice | cs5300proj1b/src/servlet/View.java:47 | adding the same address again changes nothing |
| Membership.View.AddAddrByName | cs5300proj1b/src/servlet/View.java:55-63 | a name that does not resolve answers false and changes nothing; otherwise as `AddAddr` |
| Membership.View.RemoveAddr | cs5300proj1b/src/servlet/View.java:70-72 | answers whether the address was a member; afterwards it is not, and every other member stays |
| Membership.View.GetView | cs5300proj1b/src/servlet/View.java:31-35 | every member exactly once |
| Membership.View.ReduceSetSize | cs5300proj1b/src/servlet/View.java:21-26 | the new view is a subset of the old one of size `min(old size, 5)` |
| Membership.View.GetString | cs5300proj1b/src/servlet/View.java:79-91 | `0.0.0.0` for an empty view, otherwise the members joined by `_` in `getView` order |
| Membership.ViewStringFields | cs5300proj1b/src/servlet/View.java:79-91 | the text form of a non-empty view splits back into its members, so n members give n fields |
| Membership.View.MergeView | cs5300proj1b/src/servlet/View.java:97-102 | the view gains exactly the admissible fields of the text |
| Membership.View.AddAll | cs5300proj1b/src/servlet/View.java:97-102 | adding addresses one by one by name gains exactly the admissible ones |
| Text.SplitOfJoin | cs5300proj1b/src/servlet/View.java:86-98 | `split` of a `_`-join of `_`-free fields whose last is not empty gives the fields back |
| Membership.MergeNullIP | cs5300proj1b/src/servlet/View.java:82-84 | merging the text of an empty view adds nothing |
| Membership.MergePeerString | cs5300proj1b/src/servlet/View.java:79-102 | merging a peer's `getString` adds exactly its members other than the null and own addresses |
| Membership.View.BootstrapView | cs5300proj1b/src/servlet/View.java:154-162 | the view gains exactly the admissible bootstrap addresses |
| Membership.View.UpdateBootstrapView | cs5300proj1b/src/servlet/View.java:106-120 | after merging the bootstrap entries the view keeps `min(size, 5)` of them, and the list to publish describes that view |
| Membership.PublishedShape | cs5300proj1b/src/servlet/View.java:110-120 | the published list has one more item than the view, items `server0..serverN` with distinct names, the last carrying the own address |
| Gossip.GossipViewUpdate | cs5300proj1b/src/servlet/View.java:132-150 | an empty view sends nothing and changes nothing; otherwise GET_VIEW with the own address goes to one member, which is dropped on timeout, an answer longer than one byte is merged, and the call id moves on when a socket opens |
| Gossip.GossipWithEmptyPeer | cs5300proj1b/src/servlet/View.java:146-147 | a peer with an empty view answers `0.0.0.0`, and merging that adds nothing |
| Cookies.FormCookieValue | cs5300proj1b/src/servlet/Utils.java:89-95 | the session id, the version and each server id, in order, joined by `_` |
| Cookies.FormedShape | cs5300proj1b/src/servlet/Utils.java:89-95 | a formed value is `sid_version` followed by `_ip` for each server |
| Cookies.SessionIdOfFormed | cs5300proj1b/src/servlet/Utils.java:77-79 | `getCookieSessionId` of a formed value is the session id when it holds no `_` |
| Cookies.VersionOfFormed | cs5300proj1b/src/servlet/Utils.java:119-121 | `getCookieVersion` of a formed value is the version when the session id holds no `_` |
| Cookies.IpsOfFormed | cs5300proj1b/src/servlet/Utils.java:129-132 | `getCookieIps` of a formed value is the server list when it is non-empty, holds no `_` and its last entry is not empty |
| Cookies.GetCookieSessionId | cs5300proj1b/src/servlet/Utils.java:77-79 | the text before the first `_`; the exception only for a value that starts with `_` |
| Cookies.GetCookieVersion | cs5300proj1b/src/servlet/Utils.java:119-121 | the text between the first and the second `_` (or the end), parsed; the exception when there is no `_` |
| Cookies.GetCookieIps | cs5300proj1b/src/servlet/Utils.java:129-132 | the text after the second `_`, split on `_`; the exception when there are fewer than two `_` |
| Cookies.SetCookieVersion | cs5300proj1b/src/servlet/Utils.java:104-112 | the value with field 1 replaced and joined again; the exception for fewer than two fields |
| Cookies.WithVersion | cs5300proj1b/src/servlet/Utils.java:104-112 | splitting the new value gives the old fields with only field 1 changed, so it reads back the old session id and the new version; it fails only on a value whose version cannot be read |
| Cookies.WithVersionOfFormed | cs5300proj1b/src/servlet/Utils.java:104-112 | setting the version of a formed value forms the value with the new version |
| Cookies.RemoteOutlivesLocal | cs5300proj1b/src/servlet/Utils.java:12-13 | the replica expiry is the local one plus 5000 ms, so strictly longer |
| NetUtils.PackRequest | cs5300proj1b/src/servlet/NetUtils.java:97-113 | the buffer written is the request frame |
| NetUtils.RequestFrame | cs5300proj1b/src/servlet/NetUtils.java:97-113 | the frame is `6 + len(args)` bytes and reads back the call id and the opcode |
| NetUtils.FrameLayout | cs5300proj1b/src/servlet/NetUtils.java:97-115 | the frame is `6 + len(args)` bytes: call id, opcode, the first `min(len(args), 506)` argument bytes, zeros |
| Bytes.GetPutInt | cs5300proj1b/src/servlet/NetUtils.java:111 | the big-endian call id reads back as written |
| Bytes.GetPutShort | cs5300proj1b/src/servlet/NetUtils.java:112 | the big-endian opcode reads back as written |
| NetUtils.Caller.constructor | cs5300proj1b/src/servlet/NetUtils.java:24 | call ids start at 0 |
| NetUtils.LandBytes | cs5300proj1b/src/servlet/NetUtils.java:131-133 | byte by byte, the buffer holds the datagram where it reaches and its old contents beyond |
| NetUtils.Await | cs5300proj1b/src/servlet/NetUtils.java:129-138 | a wait that hears a datagram stops at one whose call id matches or whose opcode is REPLY, of at most 512 bytes |
| NetUtils.Attempt | cs5300proj1b/src/servlet/NetUtils.java:125-161 | a candidate that answers answers 1 to 506 bytes, and the buffer stays 512 bytes |
| NetUtils.Receive | cs5300proj1b/src/servlet/NetUtils.java:131-133 | the datagram's bytes, at most 512, land over the old buffer contents |
| NetUtils.AwaitAccepted | cs5300proj1b/src/servlet/NetUtils.java:129-138 | the wait ends at the first datagram whose call id matches or whose opcode is REPLY, or times out |
| NetUtils.OwnCallHeard | cs5300proj1b/src/servlet/NetUtils.java:130-138 | a datagram echoing the call id ends the wait, whatever the buffer held |
| NetUtils.Contact | cs5300proj1b/src/servlet/NetUtils.java:129-161 | one candidate times out, refuses with NO_REPLY, or answers the bytes after the header (a single zero byte when there are none) |
| NetUtils.Visit | cs5300proj1b/src/servlet/NetUtils.java:125-161 | one reached candidate advances the walk by its outcome: a timeout drops exactly it from the view, an answer replaces the one so far |
| NetUtils.Steps | cs5300proj1b/src/servlet/NetUtils.java:121-162 | across the walk the receive buffer stays 512 bytes and any answer is 1 to 506 bytes |
| NetUtils.FailureEnds | cs5300proj1b/src/servlet/NetUtils.java:163-177 | an I/O error at a candidate ends the request with the answer and dropped list so far |
| NetUtils.Walk | cs5300proj1b/src/servlet/NetUtils.java:121-162 | the answer is the fold over the candidates, and exactly the timed-out candidates leave the view |
| NetUtils.Caller.SendRequest | cs5300proj1b/src/servlet/NetUtils.java:86-178 | no socket: no answer and no call id used; otherwise the call id is taken and incremented, the frame is built, and the answer and view are those of the walk |
| NetUtils.Frozen | cs5300proj1b/src/servlet/NetUtils.java:163-177 | whatever each candidate does, after an I/O error later candidates change nothing |
| NetUtils.ReplyIffAnswered | cs5300proj1b/src/servlet/NetUtils.java:94-177 | whatever each candidate does, there is an answer exactly when some candidate reached answered; none for an empty list |
| NetUtils.LastAnswerWins | cs5300proj1b/src/servlet/NetUtils.java:121-162 | the answer is that of the last candidate that answered |
| NetUtils.DroppedIffTimedOut | cs5300proj1b/src/servlet/NetUtils.java:139-148 | an address leaves the view exactly when its receive timed out |
| NetUtils.ReplyDelivered | cs5300proj1b/src/servlet/NetUtils.java:150-161 | a datagram `callid ++ REPLY ++ payload` for this call hands over exactly the payload |
| NetUtils.WrittenTo | cs5300proj1b/src/servlet/NetUtils.java:71-75 | no answer gives `0.0.0.0`; otherwise text whose bytes are the answer |
| NetUtils.Caller.SessionReadClient | cs5300proj1b/src/servlet/NetUtils.java:46-55 | sends `sid_version` as SESSION_READ; a record exactly when there is an answer and it parses; the call id moves on when a socket opens, and exactly the timed-out servers leave the view |
| NetUtils.Caller.SessionWriteClient | cs5300proj1b/src/servlet/NetUtils.java:64-76 | sends the record's byte form as SESSION_WRITE; answers the reply's text or `0.0.0.0`; the call id moves on when a socket opens, and exactly the timed-out servers leave the view |
| RpcListener.SessionRead | cs5300proj1b/src/servlet/RPCListener.java:78-107 | the record's bytes after REPLY when stored at the requested version (not -1), else NO_REPLY and `<id>_-1_NULL`; an exception when there is no field; the table is untouched |
| RpcListener.ReadReply | cs5300proj1b/src/servlet/RPCListener.java:78-107 | REPLY only when the table holds the id before the first `_` at the version parsed from the next field, not -1, and then the record's bytes; otherwise the refusal echoing that id; the exception only for text starting with `_` |
| RpcListener.ReadArgsFields | cs5300proj1b/src/servlet/RPCListener.java:81-92 | a client's read request splits into the id and the version, and the version parses back |
| RpcListener.ReadRequestAnswer | cs5300proj1b/src/servlet/RPCListener.java:94-101 | a client's read request is answered with the record exactly when it is stored at that version and the version is not -1 |
| RpcListener.LoneSeparatorThrows | cs5300proj1b/src/servlet/RPCListener.java:81-83 | the request `_` leaves no field and the handler throws |
| RpcListener.SessionWrite | cs5300proj1b/src/servlet/RPCListener.java:109-123 | fewer than 3 fields: NO_REPLY and own address, table unchanged; unparsable version: exception, table unchanged; otherwise a fresh record is stored with the remote expiry and REPLY and own address are answered |
| RpcListener.ParseWrite | cs5300proj1b/src/servlet/RPCListener.java:112-117 | malformed exactly when the text has fewer than two `_`; an unparsable version exactly when the text between them does not parse; otherwise id, version and rest of the text |
| RpcListener.WriteReply | cs5300proj1b/src/servlet/RPCListener.java:109-123 | the exception exactly for an unparsable version; REPLY exactly when a record is stored; the own address after the opcode |
| RpcListener.WriteRequestRoundTrip | cs5300proj1b/src/servlet/RPCListener.java:112-117 | a write request carrying a record's byte form stores that id, version and message |
| RpcListener.GetViewReply | cs5300proj1b/src/servlet/RPCListener.java:125-131 | REPLY followed by the view's text form |
| RpcListener.HandleRequest | cs5300proj1b/src/servlet/RPCListener.java:62-75 | dispatch by opcode; an unknown opcode gives exactly NO_REPLY; only a write changes the table; every result starts with REPLY or NO_REPLY |
| RpcListener.HeadOpcode | cs5300proj1b/src/servlet/RPCListener.java:72-128 | every handler result built by `putShort(op)` reads back `op` at its head |
| RpcListener.Serve | cs5300proj1b/src/servlet/RPCListener.java:26-44 | the sender joins the view first; under 6 bytes the listener throws; otherwise the reply is the request's call id followed by the handler's result, and only a well-formed write changes the table, by storing a fresh record under its id |
| Bytes.PutGetInt | cs5300proj1b/src/servlet/RPCListener.java:33-43 | the call id written back is the four bytes read |
| RpcListener.ServedReplyReachesCaller | cs5300proj1b/src/servlet/RPCListener.java:42-44 | the listener's reply frame for a REPLY result hands the waiting client exactly the payload |

## Left out

- The servlets (EnterServlet, ReplaceServlet, RefreshServlet, LogOutServlet), `Utils.genHTML` and `Utils.cookieString` are left out. They are HTTP and HTML glue that only call the modelled operations.
- Sockets are left out: send, receive, close, the two-second timeout and the listener's endless receive loop. They are network I/O. `socketOk` and `env` stand for them, and `RpcListener.Serve` handles one received datagram.
- `retrieveIP` and `getIP` are left out, because they run an external process. The own address is the constant `127.0.0.1`, which is also what they return when the metadata command fails.
- `InetAddress.getByName` and `getHostAddress` are left out. Addresses are their dotted text, and resolution is the identity or fails, as `resolves` says.
- The SimpleDB `select` and `batchPutAttributes` calls are left out, because they reach an external service. The bootstrap entries are a parameter, and the list to publish is returned.
- Threads are left out: daemon start-up, `synchronized` blocks, `Thread.sleep` jitter and the forever loops of the sweeper and view watcher. Each operation is modelled by its single-threaded effect, and `Sweep` is one pass.
- `Collections.shuffle` and `Random.nextInt` are left out because they are random. The order `getView` lists members in is arbitrary, and so is gossip's choice of member.
- Wall-clock reads (`new Date()`) are replaced by integer millisecond parameters.
- Logging to standard output is left out.
- Bytes.Encode: the platform charset is taken to be ISO-8859-1. A character above 255 encodes as `?`, and round trips are stated for one-byte text only.
- JavaInt.ParseInt: accepts ASCII digits only. Java also accepts other Unicode decimal digits.
- Membership.View.ReduceSetSize: states that the survivors are some `min(size, 5)` members. It does not state that the choice is uniformly random.
- NetUtils.Caller.SendRequest: a send that fails, such as a datagram too large for UDP, is one of `env`'s I/O errors. `synchronized (callID)` locks a boxed Integer that is replaced on each increment, so it does not serialise callers. That race is not modelled.
- Sessions.SessionTable.Sweep: the sweep runs against a table no other thread changes during the pass.

## Where the code and its documentation differ

The behaviours listed in the introduction are modelled as the code has them,
and the lemmas above prove them about that code. The model corrects none of
them.
