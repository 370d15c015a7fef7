# Tunnel control channel: registration handler and property getters

This project is a Dafny model of two pieces of a reverse-tunnel relay.

The first is the registration handler of the server's control channel, `TunnelS2CServerHandler`. There is one handler per accepted client connection.

- A frame `clientName<SPLIT>h1,h2,...` registers each trimmed host with the host registry (`TunnelManager`).
- Each tunnel carries the host's 0-based position in the message.
- Each host goes into a success list or a failed list, according to what `add` answers. Both lists are then comma-joined.
- The raw host list of the first message whose host loop ran is recorded on the connection, and never overwritten.
- When a fault reaches the handler, it removes every comma token of the recorded list from the registry and closes the connection.

The second is the typed getters of `PropsUtil`. Each one looks a key up in a loaded properties table, converts the stored value when there is one, and otherwise returns a default.

Files:

- `java_strings.dfy` (module `JavaStrings`) models the Java string operations the handler uses. It covers `String.split` with a literal separator (trailing empty pieces dropped, `[s]` when the separator does not occur), `String.trim` (characters `<= ' '` stripped from both ends), `String.contains`, and comma joining. It proves split/join round trips.
- `tunnel_registry.dfy` (module `TunnelRegistry`) holds the `Tunnel` value and the `TunnelManager` class over `map<string, Tunnel>`.
  - The outcome of `add` is a policy the registry is built with. All handler properties hold for any policy.
  - `FirstWriterWins` is first-writer-wins: a host is taken only if nobody holds it yet. Separate lemmas are stated about it.
- `server_handler.dfy` (module `TunnelServer`) holds the handler class. `ChannelRead0` checks the guard and splits the frame; `Register` splits the host list and runs the loops `RegisterHosts` and `JoinHosts`. These methods are proved against the spec functions `Hosts`, `TunnelsFor`, `AddAll`, `Select` and `Accumulate`. The same file holds `ExceptionCaught`, `OnFrame` (a fault in `ChannelRead0` is routed to `ExceptionCaught`), and the lemmas about partitioning, joining and teardown.
- `props_util.dfy` (module `PropsUtil`) holds the getters as functions over `map<string, string>`.

Parameters stand for the collaborators whose code is not part of this model:

- The `add` policy of the registry.
- The separator `Constant.SPLIT_FLAG`. It is any non-empty string, taken literally.
- `StringUtil.isNotEmpty`. It is a function known only to be false on `""` and true on any string with a character above `' '`.
- `CastUtil.castInteger`, `castLong` and `castBoolean`.

Notable behaviours of the code, as modelled:

- The guard of `channelRead0` is `isNotEmpty(content) || content.contains(SPLIT)`. So a frame with text but no separator is not ignored. Reading `split[1]` then faults, and the connection is torn down (`UnseparatedFrameFaults`, `OnFrame`).
- Teardown removes the recorded tokens untrimmed. So a host registered from `" b"` as `b` is not released (`PaddedHostSurvivesTeardown`).
- Teardown removes every recorded token, whether this connection's `add` for it succeeded or not.
- Only the first recorded list is released. Hosts from later messages on the same connection are not.

## Model

| member | source | states |
|---|---|---|
| JavaStrings.Find | tunnel-server/src/main/java/com/tunnel/server/TunnelS2CServerHandler.java:35 | `contains` as a search: the index returned is an occurrence of the separator and no earlier index is; `None` means it occurs nowhere |
| JavaStrings.DropTrailingEmpty | tunnel-server/src/main/java/com/tunnel/server/TunnelS2CServerHandler.java:36 | the split result is a prefix of the pieces that ends in a non-empty piece, and only empty pieces were cut off |
| JavaStrings.Contains | tunnel-server/src/main/java/com/tunnel/server/TunnelS2CServerHandler.java:35 | `contains` holds exactly when the separator occurs at some index |
| JavaStrings.JavaSplit | tunnel-server/src/main/java/com/tunnel/server/TunnelS2CServerHandler.java:36-39 | `split`: with no occurrence the result is the whole string; otherwise it is the literal split with its trailing empty pieces cut, and only those, and when the separator occurs the last piece kept is non-empty |
| JavaStrings.JavaSplitPieces | tunnel-server/src/main/java/com/tunnel/server/TunnelS2CServerHandler.java:36-39 | no piece of a split contains the separator |
| JavaStrings.JoinSplitAll | tunnel-server/src/main/java/com/tunnel/server/TunnelS2CServerHandler.java:36 | joining the literal split pieces with the separator gives back the original string |
| JavaStrings.JavaSplitJoin | tunnel-server/src/main/java/com/tunnel/server/TunnelS2CServerHandler.java:39 | splitting a comma join gives the pieces back when none contains a comma and the last is non-empty |
| JavaStrings.Trim | tunnel-server/src/main/java/com/tunnel/server/TunnelS2CServerHandler.java:45 | `trim` gives the token with its leading and trailing characters `<= ' '` removed: a slice of it that starts and ends with a character above `' '`, and it is empty exactly when the token had no such character |
| JavaStrings.TrimIdempotent | tunnel-server/src/main/java/com/tunnel/server/TunnelS2CServerHandler.java:45 | trimming a trimmed host changes nothing |
| TunnelRegistry.TunnelManager.Add | tunnel-server/src/main/java/com/tunnel/server/TunnelS2CServerHandler.java:52 | the answer is the registry's policy on the current entries; on success the tunnel is stored under its host, otherwise nothing changes; entries stay keyed by their own host |
| TunnelRegistry.TunnelManager.Remove | tunnel-server/src/main/java/com/tunnel/server/TunnelS2CServerHandler.java:26 | the entry for the host is gone and nothing else changes; removing an absent host is a no-op |
| TunnelRegistry.AddAllKeyedByHost | tunnel-server/src/main/java/com/tunnel/server/TunnelS2CServerHandler.java:44-58 | any sequence of `add` calls keeps every entry stored under its own host |
| TunnelRegistry.FirstWriterWinsOutcome | tunnel-server/src/main/java/com/tunnel/server/TunnelS2CServerHandler.java:52-57 | under first-writer-wins the i-th `add` of a message succeeds if and only if its host was free and no earlier host of the message was the same |
| TunnelRegistry.FirstWriterWinsHosts | tunnel-server/src/main/java/com/tunnel/server/TunnelS2CServerHandler.java:52 | under first-writer-wins the registered hosts afterwards are the old ones plus every host of the message |
| TunnelRegistry.FirstWriterWinsKeepsOwners | tunnel-server/src/main/java/com/tunnel/server/TunnelS2CServerHandler.java:52 | under first-writer-wins no existing tunnel is replaced by a message |
| TunnelServer.TunnelsFor | tunnel-server/src/main/java/com/tunnel/server/TunnelS2CServerHandler.java:43-46 | the i-th tunnel of a message carries the i-th trimmed host, the client name, index i and the connection |
| TunnelServer.TunnelS2CServerHandler.constructor | tunnel-server/src/main/java/com/tunnel/server/TunnelS2CServer.java:40 | a new handler per connection starts open with nothing recorded |
| TunnelServer.TunnelS2CServerHandler.ChannelRead0 | tunnel-server/src/main/java/com/tunnel/server/TunnelS2CServerHandler.java:33-74 | skipped exactly when both halves of the guard fail; faults exactly when the guard passes and the frame splits into fewer than two parts, changing nothing; otherwise uses split parts 0 and 1 only, ends with the registry that the `add` calls give, the two lists selected by the answers, their joins, and the host list recorded only if nothing was recorded and the message had a host |
| TunnelServer.TunnelS2CServerHandler.Register | tunnel-server/src/main/java/com/tunnel/server/TunnelS2CServerHandler.java:39-72 | for a client name and host list, the registry ends as the `add` calls on the trimmed comma tokens leave it, the two lists are the hosts selected by their answers, the joined strings are `Accumulate` of those lists, and the host list is recorded only if nothing was recorded and the list had a token |
| TunnelServer.TunnelS2CServerHandler.RegisterHosts | tunnel-server/src/main/java/com/tunnel/server/TunnelS2CServerHandler.java:39-58 | the host loop calls `add` on the numbered tunnels in order, sorts each host by its own answer, and records the raw host list once, whatever the answers |
| TunnelServer.TunnelS2CServerHandler.JoinHosts | tunnel-server/src/main/java/com/tunnel/server/TunnelS2CServerHandler.java:59-72 | the join loop's string for trimmed hosts is `Accumulate` of the list, for any `isNotEmpty` that is false on "" and true on visible text |
| TunnelServer.TunnelS2CServerHandler.ExceptionCaught | tunnel-server/src/main/java/com/tunnel/server/TunnelS2CServerHandler.java:19-30 | `remove` is called once per comma token of the recorded list, in order and untrimmed, and the registry loses exactly those keys; with nothing recorded the registry is untouched; the connection is closed |
| TunnelServer.TunnelS2CServerHandler.OnFrame | tunnel-server/src/main/java/com/tunnel/server/TunnelS2CServerHandler.java:19-38 | a frame that faults on `split[1]` leads to teardown of the hosts recorded before it and closes the connection; other frames leave the connection open |
| TunnelServer.HostsAreClean | tunnel-server/src/main/java/com/tunnel/server/TunnelS2CServerHandler.java:39-45 | every host of a message is already trimmed and contains no comma |
| TunnelServer.PartitionIsExact | tunnel-server/src/main/java/com/tunnel/server/TunnelS2CServerHandler.java:53-57 | the success and failed lists together hold each host of the message exactly once; their lengths add up to the number of hosts |
| TunnelServer.PartitionPlacesEachHost | tunnel-server/src/main/java/com/tunnel/server/TunnelS2CServerHandler.java:52-57 | host i is in the list that matches its own `add` answer |
| TunnelServer.UniformOutcome | tunnel-server/src/main/java/com/tunnel/server/TunnelS2CServerHandler.java:52-57 | when every `add` answers the same, that list is the host list in message order and the other list is empty |
| TunnelServer.AccumulateIsJoin | tunnel-server/src/main/java/com/tunnel/server/TunnelS2CServerHandler.java:59-72 | the join loop gives the comma join of the list when no host is empty, and "" exactly for the empty list |
| TunnelServer.JoinedListSplitsBack | tunnel-server/src/main/java/com/tunnel/server/TunnelS2CServerHandler.java:59-72 | a joined success or failed string of non-empty hosts splits on commas back into its list |
| TunnelServer.TeardownReleasesRecordedHosts | tunnel-server/src/main/java/com/tunnel/server/TunnelS2CServerHandler.java:21-28 | when the recorded tokens carry no surrounding blanks, no host of the recorded message is left in the registry after teardown |
| TunnelServer.PaddedHostSurvivesTeardown | tunnel-server/src/main/java/com/tunnel/server/TunnelS2CServerHandler.java:24-26 | for the list "a, b", host "b" is registered from " b" but teardown removes " b", so "b" stays |
| TunnelServer.RepeatedHostInOneMessage | tunnel-server/src/main/java/com/tunnel/server/TunnelS2CServerHandler.java:44-58 | under first-writer-wins, "a,b,a" on a registry without a or b gives success [a, b] and failed [a] |
| TunnelServer.EmptyFrameSkipped | tunnel-server/src/main/java/com/tunnel/server/TunnelS2CServerHandler.java:35 | the empty frame fails both halves of the guard |
| TunnelServer.UnseparatedFrameFaults | tunnel-server/src/main/java/com/tunnel/server/TunnelS2CServerHandler.java:35-38 | a frame with visible text and no separator passes the guard and splits into one part, so `split[1]` faults |
| PropsUtil.GetStringOr | tunnel-common/src/main/java/com/tunnel/common/PropsUtil.java:84-90 | the stored value when the key is present, the default otherwise |
| PropsUtil.GetString | tunnel-common/src/main/java/com/tunnel/common/PropsUtil.java:77-79 | the three-argument form with default "" |
| PropsUtil.GetIntOr | tunnel-common/src/main/java/com/tunnel/common/PropsUtil.java:102-108 | `castInteger` of the stored value when present (the default is ignored), the default otherwise |
| PropsUtil.GetInt | tunnel-common/src/main/java/com/tunnel/common/PropsUtil.java:95-97 | the three-argument form with default 0 |
| PropsUtil.GetLongOr | tunnel-common/src/main/java/com/tunnel/common/PropsUtil.java:117-123 | `castLong` of the stored value when present, the default otherwise |
| PropsUtil.GetLong | tunnel-common/src/main/java/com/tunnel/common/PropsUtil.java:110-112 | the three-argument form with default 0 |
| PropsUtil.GetBooleanOr | tunnel-common/src/main/java/com/tunnel/common/PropsUtil.java:136-142 | `castBoolean` of the stored value when present, the default otherwise |
| PropsUtil.GetBoolean | tunnel-common/src/main/java/com/tunnel/common/PropsUtil.java:129-131 | the three-argument form with default false |
| PropsUtil.LookupIsPerKey | tunnel-common/src/main/java/com/tunnel/common/PropsUtil.java:84-108 | a getter reads only its own key: other keys do not affect it, and a stored value wins over any default |

## Left out

- `TunnelS2CServer` (port binding, the Netty bootstrap, socket options, shutdown on a bind failure) is I/O plumbing and is not modelled.
- The frame decoder and its 1 MiB bound are not modelled. The model takes frames that are already split out.
- `TunnelServer.TunnelS2CServerHandler.OnFrame` assumes each frame reaches the handler already decoded to a `String`. The pipeline at tunnel-server/src/main/java/com/tunnel/server/TunnelS2CServer.java:38-40 installs no string decoder, and `DelimiterBasedFrameDecoder` emits byte buffers, which a `SimpleChannelInboundHandler<String>` passes on without calling `channelRead0`. What the handler does when it is not reached is not modelled.
- The idle-timeout stage is not modelled. The handler does not react to idle events, so no idle-driven teardown exists in this code.
- Concurrency is not modelled. The registry is a sequential map. Nothing is claimed about atomicity of `add`/`remove` across connections.
- `TunnelManager`, `Tunnel`, `Constant`, `StringUtil` and `CastUtil` are not part of this model. They appear as parameters, as described above.
- The registry model assumes that `add` stores the tunnel under its host exactly when it answers true.
- `Constant.SPLIT_FLAG` is used by `String.split` as a regular expression. The model treats it as a literal non-empty separator.
- The joined success and failed strings are computed but never sent, so no acknowledgement is modelled.
- `printStackTrace` and logging are left out.
- `ctx.close()` is modelled as clearing an `open` flag.
- `TunnelServer.TunnelS2CServerHandler.RegisterHosts`: `hostIndex` is a Java `int`, but it is modelled as an unbounded integer. A 1 MiB frame cannot hold enough hosts to overflow it.
- `TunnelServer.TunnelS2CServerHandler.RegisterHosts`: the `host == null` test is left out, because `split` never yields null.
- `loadProps` is not modelled. It does file checks, stream I/O and logging.
- `loadProps` returns null for a missing file, and every getter then throws a NullPointerException. The getters take a map, so that path is not modelled.
- `PropsUtil.GetBooleanOr`: a null boxed `Boolean` default is not modelled, because the default is a plain `bool`.
- The getters only read the map they are given, so "no getter modifies props" holds by construction.
