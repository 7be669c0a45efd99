# CozyLife local-pull integration, modelled in Dafny

This project models the core of the CozyLife local-pull integration for Home Assistant. The
integration finds CozyLife lights, switches and sockets on the local network. It talks to each
device over a persistent TCP connection that carries newline-delimited JSON, and it exposes the
devices as Home Assistant entities.

The model covers these parts:

- **Const.** The protocol constants: type codes, data-point ids (dpids), scales, retry and
  back-off parameters, and device states.
- **Codec.** Building a request frame (`_get_package`) and finding the answer line in a receive
  buffer (`_parse_json_lines`).
- **Client.** The state of one device connection (`TcpClient`). This covers the connect gate
  and its quick retries, failure counting with hysteresis, the back-off delay,
  `disconnect`, `update_ip` and `reconnect_with_new_ip`, the cached device state, and how the
  `INFO` handshake and the dpid query that follows it fill in the device information.
- **Exchange.** A request/response exchange (`_send_receiver_internal`): the reconnection
  before it, the write with its one reconnect-and-resend, and the wait for the answer. Also
  `query`, which answers from the cache while the receive loop runs, and the handling of
  pushed lines (`_process_received_data`).
- **ReceiveLoop.** One iteration of the persistent receive loop: the reconnection phase with
  its capped exponential delay, and the read phase.
- **Coordinator.** The device registry with its two maps (device id to entry, address to
  device id). This covers `add_device`, `remove_device`, the push bookkeeping, the periodic
  health check, the periodic scan for new addresses, and the targeted search for an offline
  device.
- **UdpDiscover.** The UDP broadcast discovery: the broadcast message, the wait for a first
  answer, and the collection of answering addresses.
- **Discovery.** The hostname scan of the local /24 network.
- **Setup.** Config-entry set-up: the configured address list, the merge of the three address
  sources, the two connection passes, the classification of each client, and the
  disconnection of unsupported clients. A registered entry holds the client object itself, so
  what `add_device` does to an entry's client (`update_ip`) and what the disconnect pass does
  to a client are seen through both.
- **Entity, Light, Switch.** The entities: names, how pushed and polled state reach the
  attributes, the light's colour modes and scales, the on/off payloads with their optimistic
  updates, availability, and which clients each platform takes.

Every operation is a pure function of its inputs. Some things become parameters:

- The clock is a `now: Time` argument.
- Each receive or connection outcome is a function from the attempt index to an outcome.
- The JSON parser is a `parse: string -> Option<Json>` argument.
- The device-model lookup is a function argument.
- Each hostname lookup is a function argument.
- Asynchronous tasks appear as the sequence of their outcomes.

`Text` and `JsonValue` supply the Python string operations the code relies on: `split`,
`join`, `strip`, `str(int)`, substring tests and compact `json.dumps`. `Wrappers` supplies
`Option` and `Result`.

## Model

Paths are relative to the repository root.

| member | source | states |
|---|---|---|
| Const.ConstantsConsistent | custom_components/hass_cozylife_local_pull/const.py:10-116 | The three supported type codes are distinct and include both switch-like codes. The light dpids are 1 to 6 and the switch dpid is 1. The retry delay is positive with the initial delay at most the cap, the back-off factor above 1 and 5 retry attempts. The reconnection bounds are ordered with factor 1.5. The failure threshold lies below the rediscovery threshold, and the four device-state names are distinct. |
| Codec.PayloadDict | custom_components/hass_cozylife_local_pull/tcp_client.py:630-640 | In the dict a payload becomes, a dpid's decimal id is a key exactly when the payload sets that dpid, and it maps to the value set. |
| Codec.Message | custom_components/hass_cozylife_local_pull/tcp_client.py:617-661 | A message exists exactly for the INFO, QUERY and SET commands. It starts with `pv` 0, `cmd` and `sn`, then has `msg`. INFO's `msg` is empty and QUERY's is `attr: [0]`. SET's `msg` has `attr`, listing the integer of every `data` key in order, and `data`, holding the payload. |
| Codec.Package | custom_components/hass_cozylife_local_pull/tcp_client.py:617-661 | A frame is built exactly when the message exists. It is the compact JSON text of the message followed by CRLF. Everything before the CRLF is printable ASCII. |
| Codec.Lines | custom_components/hass_cozylife_local_pull/tcp_client.py:691 | A buffer has at least one line, and no line contains a CR or LF. |
| Codec.ParseJsonLines | custom_components/hass_cozylife_local_pull/tcp_client.py:676-715 | There is no result exactly when no stripped line answers. Otherwise the result is the parsed object of the first line that answers. |
| Codec.FrameLines | custom_components/hass_cozylife_local_pull/tcp_client.py:617-715 | The lines of a frame are its JSON text followed by one empty line. |
| Codec.MessageTextHasSn | custom_components/hass_cozylife_local_pull/tcp_client.py:617-661 | A serial number that needs no escaping appears verbatim in the message text. |
| Codec.FrameAnswersWait | custom_components/hass_cozylife_local_pull/tcp_client.py:617-715 | Round trip: a buffer holding one frame built for `sn` answers a wait for any substring of `sn` with exactly that message, given a parser that reads back what the serialiser writes. |
| Codec.ObjectLineAnswers | custom_components/hass_cozylife_local_pull/tcp_client.py:676-715 | A buffer holding one object's text and CRLF answers a wait for any text that the object's JSON contains, given that the parser reads the object back. |
| Codec.SubstringMatchAcceptsOtherSn | custom_components/hass_cozylife_local_pull/tcp_client.py:697-700 | The line test is a substring test: a response carrying serial number `123` answers a request whose serial number is `12`. |
| Client.NewClient | custom_components/hass_cozylife_local_pull/tcp_client.py:92-128 | A new client is disconnected and unavailable. Its counters and back-off deadline are zero, its state is unknown and its cache empty. Its reconnection delay is the minimum and its device information is empty. |
| Client.HandleConnectionFailure | custom_components/hass_cozylife_local_pull/tcp_client.py:236-272 | The retry count grows up to 5 and the failure count grows by one. Availability is lost once the failure count reaches 3. The next attempt is scheduled at now plus the back-off delay for the new retry count (0.5 × 1.5^(retry−1), capped at 15 s), which is never more than 2.53125 s after now. Nothing else changes. |
| Client.RetryDelayBounds | custom_components/hass_cozylife_local_pull/tcp_client.py:256-262 | The back-off delay lies between the initial delay and the cap. |
| Client.RetryDelayMonotone | custom_components/hass_cozylife_local_pull/tcp_client.py:256-262 | The delay never shrinks as the retry count grows. |
| Client.PowMonotone | custom_components/hass_cozylife_local_pull/tcp_client.py:256-262 | For a back-off factor of at least one, a larger exponent never gives a smaller power. |
| Client.RetryDelayCapped | custom_components/hass_cozylife_local_pull/tcp_client.py:241-262 | The retry count stops at 5, so the delay is at most 2.53125 s and never reaches the 15 s cap. |
| Client.FailuresFromHealthy | custom_components/hass_cozylife_local_pull/tcp_client.py:236-272 | From a healthy client, the device stays available through two failures in a row and becomes unavailable exactly at the third. The retry count saturates at 5. |
| Client.FailureDelayGrows | custom_components/hass_cozylife_local_pull/tcp_client.py:236-272 | A further failure never brings the next attempt closer. |
| Client.MarkSuccess | custom_components/hass_cozylife_local_pull/tcp_client.py:350-362 | After a success the client is available with no error. All counters and the deadline are zero, both timestamps are now, and nothing else changes. |
| Client.MarkFailure | custom_components/hass_cozylife_local_pull/tcp_client.py:364-383 | A failure adds one to the failure count and uses the same threshold of 3. It records the error and leaves the retry count and deadline alone. |
| Client.CommunicationHysteresis | custom_components/hass_cozylife_local_pull/tcp_client.py:364-383 | `k` failures in a row add `k` to the count. The device stays available exactly while the count is below 3. |
| Client.CloseConnection | custom_components/hass_cozylife_local_pull/tcp_client.py:316-328 | Closing drops the connection and clears the buffer and nothing else; availability is left alone. |
| Client.Disconnect | custom_components/hass_cozylife_local_pull/tcp_client.py:330-339 | Disconnecting closes the connection and zeroes the retry count, the deadline and the failure count. It keeps availability, device information, cache and address. |
| Client.DisconnectForgetsFailures | custom_components/hass_cozylife_local_pull/tcp_client.py:330-339 | After `disconnect`, an unforced connect is not held back, and it takes three fresh failures to lose availability. |
| Client.ConnectGateBlocks | custom_components/hass_cozylife_local_pull/tcp_client.py:154-161 | Before the back-off deadline, an unforced connect fails and changes nothing. |
| Client.ConnectOutcome | custom_components/hass_cozylife_local_pull/tcp_client.py:130-234 | A forced connect, or an unforced one past the deadline, succeeds exactly when the deciding attempt opened the socket. Success leaves the client healthy and online with the information of the handshake and of the dpid query that follows it. It stays connected unless that query lost the connection. A failure counts one connection failure, keeps the information, and leaves the socket open exactly when the deciding attempt failed after opening it. |
| Client.AttemptsKeepDelay | custom_components/hass_cozylife_local_pull/tcp_client.py:162-234 | The quick-retry loop never changes the receive loop's reconnection delay. It sets the device state only to `online`. |
| Client.UpdateIp | custom_components/hass_cozylife_local_pull/tcp_client.py:1355-1384 | It reports a change exactly when the address differs. The same address changes nothing. A new address resets the retry count, deadline and reconnection delay and changes nothing else. |
| Client.UpdateIpIdempotent | custom_components/hass_cozylife_local_pull/tcp_client.py:1355-1384 | A second `update_ip` with the same address changes nothing. |
| Client.ReconnectWithNewIpSpec | custom_components/hass_cozylife_local_pull/tcp_client.py:1386-1403 | The client ends at the new address whatever the connection does. It connects exactly when the deciding attempt opened, and is then healthy and online, connected unless the dpid query lost the connection. After a real move, a failed reconnection is counted as the first retry. |
| Client.Merge | custom_components/hass_cozylife_local_pull/tcp_client.py:1102-1117 | The merged keys are the old and new keys together. New keys take the update's values and all other keys keep theirs. |
| Client.DispatchState | custom_components/hass_cozylife_local_pull/tcp_client.py:1102-1117 | An empty update changes nothing. Otherwise the update is merged into the cache and nothing else changes. |
| Client.DispatchIdempotent | custom_components/hass_cozylife_local_pull/tcp_client.py:1102-1117 | Dispatching the same update twice has the effect of dispatching it once. |
| Client.InferType | custom_components/hass_cozylife_local_pull/tcp_client.py:596-604 | Only the type code can change, and only when it is empty and dpids are known. It becomes light exactly when dpid 3, 4, 5 or 6 is listed, and switch otherwise. |
| Client.ApplyDeviceInfo | custom_components/hass_cozylife_local_pull/tcp_client.py:553-604 | Without a `did`, or with a null one, the information is unchanged. Otherwise the device has an id exactly when `did` is truthy, and it is then `str(did)`. It has a name exactly when `name` is present and truthy, and it is then `str(name)`. A truthy `dtp` becomes the type code. |
| Client.PidLookupClearsDpid | custom_components/hass_cozylife_local_pull/tcp_client.py:571-594 | A model-list match replaces the dpid list outright. A matched model with no dpids therefore clears a list learned earlier. |
| Client.PidLookupIsRaw | custom_components/hass_cozylife_local_pull/tcp_client.py:571-594 | The pid is compared with the list's entries as it came. A numeric pid `7` does not find the model listed under `"7"`, so the device gets no dpids and no type. |
| Client.FalsyIdentity | custom_components/hass_cozylife_local_pull/tcp_client.py:558-563 | A `did` of 0 passes the null check but leaves the device without an id, and a null name leaves it without a name. |
| Client.DeviceInfoTypePrecedence | custom_components/hass_cozylife_local_pull/tcp_client.py:566-594 | A truthy `dtp` beats the model list's category. With no `dtp` and no type yet, a matched model's non-empty category becomes the type. |
| Client.CaptureDpid | custom_components/hass_cozylife_local_pull/tcp_client.py:793-796 | A known dpid list is kept. An empty one becomes the `str()` of each element of a list `msg.attr`. Only the dpid list changes, and nothing changes without a list `attr`. |
| Client.OpenedInfoSpec | custom_components/hass_cozylife_local_pull/tcp_client.py:184-190 | After an opened attempt, everything but the dpids is what the handshake found, the type code included. Handshake dpids are kept. Otherwise the dpids are those of a list `attr` in the query's answer, or none. |
| Client.QueriedDpidsStayUntyped | custom_components/hass_cozylife_local_pull/tcp_client.py:184-190 | A device the handshake could not type stays untyped even when the query's answer lists light dpids, because the inference ran before the query. |
| Exchange.FinishResponseSpec | custom_components/hass_cozylife_local_pull/tcp_client.py:789-805 | A matched response never touches the buffer, address or cache, and keeps a known dpid list. It returns data only by ending healthy. |
| Exchange.ReadResponseInvariants | custom_components/hass_cozylife_local_pull/tcp_client.py:757-840 | The wait leaves the buffer empty and keeps the address, the cache and a known dpid list. It either ends healthy, which is the only way to return data, or counts at most one failure and leaves the retry count and deadline alone. |
| Exchange.AwaitResponse | custom_components/hass_cozylife_local_pull/tcp_client.py:757-833 | The same guarantees as above for the whole wait from the first read; a non-empty result stamps the success time as now. |
| Exchange.AllTimeoutsOneFailure | custom_components/hass_cozylife_local_pull/tcp_client.py:814-827 | Five read timeouts in a row count exactly one communication failure. |
| Exchange.FinishWithData | custom_components/hass_cozylife_local_pull/tcp_client.py:799-805 | A response whose `msg` and `msg.data` are dicts ends the exchange healthy, with the dict `data` decodes to. |
| Exchange.FrameScansAsAnswer | custom_components/hass_cozylife_local_pull/tcp_client.py:776-805 | A buffer holding one response frame that carries the serial number is answered by that response. |
| Exchange.AnswerOnFirstRead | custom_components/hass_cozylife_local_pull/tcp_client.py:757-805 | Round trip: if the first read is the text of a response with the request's serial number, a dict `msg` and a dict `data`, the wait returns that data and leaves the client healthy. |
| Exchange.SplitAnswerIsLost | custom_components/hass_cozylife_local_pull/tcp_client.py:774-787 | The buffer is cleared after any parse, even one that found no answer. An answer line split across two reads, whose first part already holds the serial number, is lost, although the same line in one read answers. |
| Exchange.PushedUpdate | custom_components/hass_cozylife_local_pull/tcp_client.py:1311-1326 | A pushed line yields an update only when it is a non-empty dict. |
| Exchange.ProcessReceivedSpec | custom_components/hass_cozylife_local_pull/tcp_client.py:1288-1332 | Each cached key ends with the value of the last update that mentions it, and keys no update mentions are kept. Any update leaves the client healthy; otherwise nothing else changes. |
| Exchange.SetEchoUpdates | custom_components/hass_cozylife_local_pull/tcp_client.py:1306-1326 | A SET frame pushed back by the device is one update: the command's `data` dict. |
| Exchange.SetMessageUpdate | custom_components/hass_cozylife_local_pull/tcp_client.py:1311-1326 | The text of a SET message, read back as a push, carries the command's `data` dict. |
| Exchange.EchoedSetUpdatesCache | custom_components/hass_cozylife_local_pull/tcp_client.py:1288-1332 | An echoed SET frame puts every commanded dpid in the cache and leaves the client healthy. A dpid set once holds the commanded value. |
| Exchange.SendReceiveSpec | custom_components/hass_cozylife_local_pull/tcp_client.py:717-840 | An exchange never changes the address, the cache or the reconnection delay, and sets the device state only to `online`. Data is returned only by a healthy client, stamped now. Without a connection, inside the back-off window, the client is left as it was and gets nothing. An open connection whose write goes through gets the wait's result. When both writes fail nothing is returned. |
| Exchange.ConnectKeeps | custom_components/hass_cozylife_local_pull/tcp_client.py:130-234 | An unforced connect keeps the address, the cache and the reconnection delay, and sets the device state only to `online`. |
| Exchange.QueryWhileLoopRuns | custom_components/hass_cozylife_local_pull/tcp_client.py:965-983 | While the loop runs, a client with a cache gets the cache and is untouched, and dispatching that answer changes nothing. A client without a cache is queried over the connection, and dispatching the answer leaves exactly that answer in the cache. |
| ReceiveLoop.ConnectPhaseSpec | custom_components/hass_cozylife_local_pull/tcp_client.py:1190-1232 | Phase 1 succeeds exactly when the deciding attempt opened, and the delay becomes that of the result. Success leaves the client online. With a cache nothing is sent: the client is healthy with the handshake's information and connected unless the dpid query lost the connection. Without a cache the state query goes to the device, and a cache it fills means a healthy exchange. Failure leaves it offline with one more failure and the cache kept. |
| ReceiveLoop.ReadPhaseSpec | custom_components/hass_cozylife_local_pull/tcp_client.py:1234-1276 | The read phase keeps the delay, address and device information, and the state is online. A closed connection stays closed with no failure counted. On an open one, data ends healthy; an empty read or an error counts one failure and drops the connection; an idle connection stays open exactly when no heartbeat is due or it was sent. |
| ReceiveLoop.StepDelay | custom_components/hass_cozylife_local_pull/tcp_client.py:1190-1232 | A connected iteration keeps the reconnection delay. A disconnected one moves it according to the connect result: reset to the minimum on success, grown by 1.5 up to 300 on failure. |
| ReceiveLoop.DelayStaysInRange | custom_components/hass_cozylife_local_pull/tcp_client.py:1215-1232 | A delay within `[5, 300]` stays there. |
| ReceiveLoop.DelayClosedForm | custom_components/hass_cozylife_local_pull/tcp_client.py:1215-1232 | `n` failed reconnections from delay `d` give `min(d * 1.5 ** n, 300)`. |
| ReceiveLoop.DelayReachesCap | custom_components/hass_cozylife_local_pull/const.py:106-108 | From 5 s, the tenth failure still waits less than 300 s and the eleventh reaches the cap. |
| ReceiveLoop.ConnectedIteration | custom_components/hass_cozylife_local_pull/tcp_client.py:1177-1286 | For a connected device, an iteration keeps it online at the same delay. A read with data leaves it healthy and connected. An empty or failed read leaves it disconnected with one more failure. |
| Coordinator.AddDeviceSpec | custom_components/hass_cozylife_local_pull/coordinator.py:178-236 | A client without an id changes nothing. A known id takes the client and the new address, dropping the old address. A new id gets a fresh entry at its address. |
| Coordinator.AddDeviceConsistentIff | custom_components/hass_cozylife_local_pull/coordinator.py:178-236 | The two maps stay consistent exactly when the client's address is free or already belongs to that device. `add_device` does not check this. |
| Coordinator.RemoveDevice | custom_components/hass_cozylife_local_pull/coordinator.py:238-259 | It reports removal exactly for a known id. An unknown id changes nothing. A known one loses its entry and its address mapping. |
| Coordinator.RemoveDeviceConsistent | custom_components/hass_cozylife_local_pull/coordinator.py:238-259 | Removal keeps the maps consistent. |
| Coordinator.AddThenRemove | custom_components/hass_cozylife_local_pull/coordinator.py:178-259 | Round trip: adding a new device at a free address and removing it restores the registry. |
| Coordinator.OnDeviceStateUpdate | custom_components/hass_cozylife_local_pull/coordinator.py:262-276 | A push from a registered device marks it seen now and not offline. Nothing else changes. |
| Coordinator.CheckEntrySpec | custom_components/hass_cozylife_local_pull/coordinator.py:278-317 | An online device is seen now. An offline device is stamped offline once, at the start of the outage. A targeted search is requested exactly when the last one is at least 120 s old, and its time is then recorded. Other devices are left alone. |
| Coordinator.HealthCheckConsistent | custom_components/hass_cozylife_local_pull/coordinator.py:278-317 | The health check keeps the maps consistent and never touches the address index. |
| Coordinator.HealthCheckSettles | custom_components/hass_cozylife_local_pull/coordinator.py:278-317 | A second health check at the same moment announces nothing and starts no search. |
| Coordinator.NewIpsSpec | custom_components/hass_cozylife_local_pull/coordinator.py:332-334 | An address is probed exactly when a source found it and it is not mapped. |
| Coordinator.MoveDeviceConsistent | custom_components/hass_cozylife_local_pull/coordinator.py:368-393 | Moving a known device to a free address keeps the maps consistent and the set of devices. The device ends at the new address, no other entry changes, and only the new address is added to the index. |
| Coordinator.CheckIpConsistent | custom_components/hass_cozylife_local_pull/coordinator.py:351-414 | Checking a free address keeps the maps consistent, and at most that address is newly mapped. |
| Coordinator.CheckNewIpsConsistent | custom_components/hass_cozylife_local_pull/coordinator.py:319-414 | The periodic scan keeps the maps consistent. |
| Coordinator.RecoverSpec | custom_components/hass_cozylife_local_pull/coordinator.py:454-482 | Finding the offline device at a free address moves it there and clears its offline stamp. The maps stay consistent and no other entry changes. |
| Coordinator.RediscoverDeviceSpec | custom_components/hass_cozylife_local_pull/coordinator.py:416-492 | The targeted search keeps the maps consistent and the set of devices. The target stays put or ends, no longer offline, at a scanned address that was free. Every other entry is untouched. |
| UdpDiscover.DiscoveryMessageSpec | custom_components/hass_cozylife_local_pull/udp_discover.py:48-60 | The broadcast is one line of printable ASCII, with no CR or LF, in braces. It asks for cmd 0 and pv 0 with the serial number, and a serial number that needs no escaping appears in it verbatim. |
| UdpDiscover.WaitFirstSpec | custom_components/hass_cozylife_local_pull/udp_discover.py:115-133 | A first answer exists exactly when one of the first 15 receives is a packet, and the result is the earliest such receive. |
| UdpDiscover.DedupSpec | custom_components/hass_cozylife_local_pull/udp_discover.py:136-167 | The collected list has no duplicates and holds exactly the received addresses. |
| UdpDiscover.DedupPrefix | custom_components/hass_cozylife_local_pull/udp_discover.py:136-167 | The list is in first-seen order: what was collected by an earlier point is a prefix of the final list. |
| UdpDiscover.CollectResponses | custom_components/hass_cozylife_local_pull/udp_discover.py:136-167 | At most 150 receives are made. The result is the distinct packet addresses in arrival order. Collection ended after 150 receives, after 5 timeouts in a row, or on an error. |
| UdpDiscover.DiscoverDevices | custom_components/hass_cozylife_local_pull/udp_discover.py:80-112 | With no first answer the result is empty. Otherwise collection starts at the first answer and the result is exactly the distinct addresses of every answer within the collection window (`Collected`): in first-seen order, starting with the first answer's address, and the window ends at 150 iterations, five timeouts in a row or an error. |
| UdpDiscover.GetIp | custom_components/hass_cozylife_local_pull/udp_discover.py:63-77 | A socket that cannot be set up gives no addresses. A working one gives no addresses without a first answer, and otherwise exactly the distinct addresses collected from the first answer on (`Collected`), none of them unreceived. |
| Discovery.BaseOfAddress | custom_components/hass_cozylife_local_pull/discovery.py:38-40 | The base of the dotted quad `a.b.c.d` is `a.b.c`. |
| Discovery.BaseOfShort | custom_components/hass_cozylife_local_pull/discovery.py:38-40 | An address with at most three parts is its own base. |
| Discovery.CandidatesSpec | custom_components/hass_cozylife_local_pull/discovery.py:38-40 | There are 254 distinct scanned addresses. All start with the base and a dot, and host numbers 1 to 254 are all included. |
| Discovery.KeepSpec | custom_components/hass_cozylife_local_pull/discovery.py:46-73 | An address is kept exactly when it is scanned, is not the source, and its lookup gives a non-empty name starting with `CozyLife_`. No address is kept twice, and the source counts against the total. |
| Discovery.HostnameScanSpec | custom_components/hass_cozylife_local_pull/discovery.py:28-87 | No source address gives nothing. Otherwise the result is exactly the CozyLife-named addresses of the network other than the source, without duplicates: at most 254, and fewer when the source is in range. |
| Discovery.ScanSkipsOwnAddress | custom_components/hass_cozylife_local_pull/discovery.py:38-48 | For a source `a.b.c.k` with `1 <= k <= 254`, the scan covers the source and skips it, so at most 253 devices are found. |
| Setup.StrippedNonEmptySpec | custom_components/hass_cozylife_local_pull/__init__.py:187-188 | The configured addresses are exactly the non-empty stripped pieces. Each has no comma and no surrounding whitespace. |
| Setup.ConfigIpsSpec | custom_components/hass_cozylife_local_pull/__init__.py:187-188 | For the configured text itself: the addresses are exactly the non-empty stripped comma-separated pieces. |
| Setup.ConfigIpsRoundTrip | custom_components/hass_cozylife_local_pull/__init__.py:187-188 | Round trip: clean addresses written as a comma-separated list read back as the same list, in order. |
| Setup.IpListSpec | custom_components/hass_cozylife_local_pull/__init__.py:178-191 | The list holds every address found by any source. A failed source counts the same as one that found nothing. |
| Setup.ConnectAllSpec | custom_components/hass_cozylife_local_pull/__init__.py:226-249 | The first pass keeps each address. A client whose deciding attempt opened is online with what the handshake and the dpid query learned, and connected unless that query lost the connection. Any other keeps empty information. |
| Setup.RetryFailedSpec | custom_components/hass_cozylife_local_pull/__init__.py:251-260 | The second pass leaves clients with an id untouched and retries exactly the others. A successful retry leaves the client as a successful first connect would. A failed one keeps its information. No address changes. |
| Setup.ClassifySpec | custom_components/hass_cozylife_local_pull/__init__.py:262-282 | A client is registered exactly when its type is supported, or it has an id and no type (it then becomes a switch), or it is available with an id. Only the defaulting branch changes the client. |
| Setup.RegisteredThenDisconnected | custom_components/hass_cozylife_local_pull/__init__.py:262-292 | An available client with an id and an unknown type is registered and then disconnected as unsupported. |
| Setup.RegisterAllConsistent | custom_components/hass_cozylife_local_pull/coordinator.py:178-236 | Registering clients with distinct addresses that are not yet mapped keeps the registry consistent, and maps only those addresses. |
| Setup.RegisterFirstLoop | custom_components/hass_cozylife_local_pull/__init__.py:262-282 | After each client of the loop: later clients are untouched, earlier ones carry their prepared information, and each registered entry holds the client object at its owner's index. A client leaves its address only for that of a later client with the same id. The valid list holds exactly the indices not skipped, in order. |
| Setup.SameIdTwoAddresses | custom_components/hass_cozylife_local_pull/coordinator.py:193-207 | Two clients that report the same id from two addresses both end at the second address, because `update_ip` moves the first client, which the registered entry holds. |
| Setup.DisconnectUnsupported | custom_components/hass_cozylife_local_pull/__init__.py:285-292 | Every client with an unsupported type is disconnected and every other one is untouched. No address, information or availability changes. |
| Setup.QueriedLightRegisteredAsSwitch | custom_components/hass_cozylife_local_pull/__init__.py:262-282 | A light typed only by the dpid query's answer is registered as a switch, though its dpids mark a light. |
| Setup.SetupEntrySpec | custom_components/hass_cozylife_local_pull/__init__.py:178-292 | Set-up makes one client per listed address. A client leaves its address only for that of a later listed client with the same id. The registry is consistent, maps only listed addresses, and holds the clients themselves. Every kept client with an id is registered under it, and every registered id is that of a kept client. The valid clients are exactly those not skipped, in order. No unsupported client stays connected, registered or not. |
| Entity.EntityNameSpec | custom_components/hass_cozylife_local_pull/entity.py:53-60 | The name is never empty. It is the user name, else the model name, else `CozyLife ` and the id's first eight characters, which decide it. |
| Entity.ProcessStateUpdateSpec | custom_components/hass_cozylife_local_pull/entity.py:141-161 | A non-dict or empty update changes nothing. Otherwise it is merged into the state, and `is_on` follows dpid 1 of the merged state. |
| Entity.ProcessStateUpdateIdempotent | custom_components/hass_cozylife_local_pull/entity.py:141-161 | Processing an update twice is the same as once. |
| Entity.HandleStateUpdateSpec | custom_components/hass_cozylife_local_pull/entity.py:164-177 | State is written exactly for a non-empty dict. The effect is that of processing the update. |
| Entity.AvailableForClient | custom_components/hass_cozylife_local_pull/entity.py:192-203 | For a client of this integration, the entity is available exactly when the client is online. |
| Entity.PollReplacesPushMerges | custom_components/hass_cozylife_local_pull/entity.py:215-232 | A push keeps every key, while a poll replaces the state with the query result. An empty poll keeps `is_on`, and an unavailable entity is not polled. |
| Entity.AddedToHassSpec | custom_components/hass_cozylife_local_pull/entity.py:91-124 | After being added, the entity holds all three subscriptions and every key of the client's cache, with `is_on` from the merged state. A connected client, or one inside its back-off window, is untouched. Otherwise the unforced connect leaves it healthy and online when the deciding attempt opened, and counts one more failure when it did not. The address and cache never change. |
| Entity.WillRemoveSpec | custom_components/hass_cozylife_local_pull/entity.py:126-139 | Removal releases exactly the held subscriptions, each once, and clears them. A second removal releases nothing. |
| Light.FeaturesSpec | custom_components/hass_cozylife_local_pull/light.py:109-134 | The active colour mode is supported. Hue or saturation gives HS, else colour temperature gives COLOR_TEMP. Brightness alone is offered only when neither colour dpid is listed. |
| Light.FeaturesExamples | custom_components/hass_cozylife_local_pull/light.py:109-134 | An RGBCW light is HS, a CW light is COLOR_TEMP and a dimmer is BRIGHTNESS. |
| Light.Mireds | custom_components/hass_cozylife_local_pull/light.py:161-166 | The mired value lies in `[153, 500]`. A device value up to 1 gives 500 and one from 694 up gives 153. In between, each two steps of the value lower the mireds by one. |
| Light.KelvinAsWritten | custom_components/hass_cozylife_local_pull/light.py:168 | `int(1000000 / mireds)` is the largest whole kelvin whose product with the mireds is at most a million. It lies in `[2000, 6535]` and exceeds 6500 exactly at 153 mireds. |
| Light.KelvinAsWrittenExceedsMax | custom_components/hass_cozylife_local_pull/light.py:161-168 | As written, the coolest device value 1000 gives 153 mireds and 6535 K, above the advertised 6500 K maximum. Every mired value from 154 up stays in range. |
| Light.KelvinRange | custom_components/hass_cozylife_local_pull/light.py:67-68 | Every reported temperature lies in the advertised range. It agrees with the source's formula wherever that stays in range. |
| Light.ColorTempValue | custom_components/hass_cozylife_local_pull/light.py:205-211 | The device value sent for a colour temperature lies in `[0, 1000]`. |
| Light.ReadBackSpec | custom_components/hass_cozylife_local_pull/light.py:142-168 | An empty result changes no attribute. A non-empty one reads back exactly when every conversion succeeds, which a numeric one always does. Then the light is on exactly when dpid 1 is positive, the brightness is the value over four, the colour is `float()` of hue and saturation over ten when both are present, and dpid 3 gives the mireds and `int(1000000 / mireds)` kelvin, above 6500 exactly when the value is at least 694. An absent dpid keeps its attribute. |
| Light.ReadBackCorrectedSpec | custom_components/hass_cozylife_local_pull/light.py:161-168 | The corrected read-back succeeds exactly when the source's does and agrees with it on every attribute but the kelvin. That lies in `[2000, 6500]`: 6500 for every device value from 694 up, and the source's value below. |
| Light.ReadBackExample | custom_components/hass_cozylife_local_pull/light.py:142-168 | A state with brightness 512, hue 180 and saturation 500 reads as brightness 128 and colour `(180, 50)`. |
| Light.TurnOnPayloadSpec | custom_components/hass_cozylife_local_pull/light.py:198-211 | The payload sets each dpid once and starts with switch-on and white mode. It sets dpids 4, 5 and 6, and 3 exactly when brightness, colour or temperature is given, to the scaled values. |
| Light.TurnOnOptimistic | custom_components/hass_cozylife_local_pull/light.py:216-224 | A failed command changes nothing. A confirmed one turns the light on and replaces exactly the attributes given. |
| Light.TurnOffOptimistic | custom_components/hass_cozylife_local_pull/light.py:230-243 | A failed command changes nothing. A confirmed one changes only `is_on`, to false. |
| Light.TurnOnEchoOnBrightness | custom_components/hass_cozylife_local_pull/light.py:198-211 | The dict a device reports after a turn-on has dpid 1 at 255. It has dpid 4, at four times the brightness, exactly when a brightness was given. |
| Light.TurnOnEchoColour | custom_components/hass_cozylife_local_pull/light.py:198-211 | The same dict has dpids 5 and 6 exactly when a colour was given, and dpid 3 exactly when a temperature was given. |
| Light.TurnOnReadBack | custom_components/hass_cozylife_local_pull/light.py:142-224 | Reading back what the device reports after a turn-on agrees with the optimistic update: on, with the brightness set, and the colour set when it is whole degrees and tenths of a percent. A set temperature reads back within `[2000, 6535]`. |
| Switch.PlatformClientsSpec | custom_components/hass_cozylife_local_pull/switch.py:27-32 | A platform takes exactly the clients of its type code, and no more than there are. |
| Switch.SocketGetsNoEntity | custom_components/hass_cozylife_local_pull/switch.py:21-33 | A socket (`02`) is a supported category, yet neither platform takes it. |
| Switch.EveryCategoryGetsEntity | custom_components/hass_cozylife_local_pull/switch.py:21-33 | With the switch-like filter, each supported client gets exactly one entity kind: a light for `01`, a switch for `00` and `02`. |
| Switch.SwitchNameSpec | custom_components/hass_cozylife_local_pull/switch.py:62-90 | The switch's name is never empty. It agrees with the base entity's name except in the last-resort case. |
| Switch.SwitchUpdateSpec | custom_components/hass_cozylife_local_pull/switch.py:97-101 | The state becomes the query result, and an empty result keeps `is_on`. On numbers the switch's test agrees with the base entity's. An empty string counts as on for the switch only. |
| Switch.SwitchTurnSpec | custom_components/hass_cozylife_local_pull/switch.py:118-146 | The payload sets dpid 1, to non-zero exactly for on. A confirmed command changes only `is_on`, to the target; a failed one changes nothing. Polling the commanded dict agrees. |
| Switch.AvailabilityViewsDiffer | custom_components/hass_cozylife_local_pull/switch.py:104-106 | An online client after three failures is unavailable to the switch yet available to the base entity. |
| Text.SplitJoin | custom_components/hass_cozylife_local_pull/__init__.py:187-188 | Joining pieces that contain no separator and splitting again gives the pieces back. |
| Text.JoinSplit | custom_components/hass_cozylife_local_pull/discovery.py:38-40 | Splitting on a separator and joining with it gives the text back. |
| Text.StripSpec | custom_components/hass_cozylife_local_pull/__init__.py:187-188 | `strip()` returns an infix with no leading or trailing whitespace, and removes only whitespace. |
| JsonValue.PyFloat | custom_components/hass_cozylife_local_pull/light.py:155-159 | `float()` reads every number as itself and rejects null, lists and dicts. |
| JsonValue.FloatOfRenderedNat | custom_components/hass_cozylife_local_pull/light.py:155-159 | `float()` of the decimal text of a natural number is that number. |
| JsonValue.PointNumeral | custom_components/hass_cozylife_local_pull/light.py:155-159 | `float()` of digits, a point and digits is the whole part plus the fraction. |

## Left out

- Sockets, streams and TCP keep-alive: reads and connection attempts are parameters that give each attempt's outcome. `_configure_socket_keepalive` sets only OS options.
- The UDP socket set-up, the eight broadcast sends and the sleeps between them are out. Only whether the socket could be set up and the sequence of receive outcomes are modelled.
- asyncio: the locks, tasks, cancellation and `gather` are out. Each asynchronous step is modelled as a sequential function of its outcome.
- The hostname scan's semaphore and completion order are out. The result is listed in scan order, since only its contents matter.
- The clock is the `now` parameter, and one instant stands for every time stamp taken inside one call. In the source, the stamps of `connect` (`lastSuccess`, and the `nextRetryTime` of a failure) come after 0.5 s sleeps and connection time-outs (`tcp_client.py:176-225`); the model takes them at the call's `now`. The serial number is a parameter, not derived from the time.
- The HTTP model-list lookup behind the `pid` field of the handshake is a parameter.
- The JSON parser is a parameter. `Codec.FrameAnswersWait` and the other round trips assume it reads back what the serialiser writes.
- Home Assistant plumbing is out: the dispatcher, entity registration, the config flow, logging and the services. A state write is returned as a flag.
- The service handlers of `__init__.py` (lines 73-133) are out. So is the `is_configured` argument at `__init__.py:233`, which the `TcpClient` constructor (`tcp_client.py:75-82`) does not accept.
- Floating-point rounding of hue, saturation and kelvin is out. Those values are mathematical reals or integers. A switch, brightness or temperature value that is not a number is the source's `TypeError` path. Hue and saturation go through `float()`, which also accepts numeric strings.
- JsonValue.PyFloat: reads plain decimal numerals only. Exponents, `inf`, `nan`, underscores and non-ASCII digits are rejected here, although Python's `float()` accepts them. No lemma covers signed numerals.
- Client.ApplyDeviceInfo: the source stores `did`, `name`, `dtp` and `pid` as they came. The model stores their `str()`, with a falsy id or name as the empty string, because every reader only tests them for truth, formats them or compares them with type-code strings. The pid-list lookup gets the raw `pid`. `PyStr` writes lists and dicts as compact JSON, not as Python's `repr`.
- Client.ApplyDeviceInfo: the INFO reply is given as the `msg` dict the line scan picked. How `_device_info` chooses among several lines is not modelled.
- Client.OpenedInfo: the dpid query after the handshake is given by its result: the answer's `msg` and whether the connection stayed open. The reconnection that query may itself attempt is not modelled.
- Client.Connect: a timeout that cancels `_device_info` part-way, after it stored some fields, is modelled as a failure that keeps the earlier information.
- Exchange.AwaitResponse: models the wait after the request has been written. The exception path that closes the connection is covered by `Exchange.ReadResponseInvariants` only as "at most one failure".
- Exchange.SendReceive: the error text recorded when the resend fails is a fixed string, not the exception's text.
- `control` and `heartbeat` as public methods are out, beyond their payload and their result.
- ReceiveLoop.ReadPhaseSpec: the receive loop's catch-all exception path and `RECEIVE_LOOP_RETRY_DELAY` sleep are not modelled separately; an error is the same as a failed read.
- ReceiveLoop.ConnectPhaseSpec: an exception raised by `connect` itself (`tcp_client.py:1224-1232`) is not modelled. `connect` catches every exception of its attempts, so only an error outside them would reach it.
- Coordinator.CheckIpConsistent: the temporary probe client's `disconnect` is not modelled, as it touches no registry state.
- Setup.SetupEntrySpec: the order that `list(set(...))` gives the address list is a parameter. Only its contents are fixed. `coordinator.start` and the forwarding to the platforms are out.
- Codec.ParseJsonLines: a line answers when it contains the serial number as a substring. This follows the code, not the comparison of the `sn` field (see `Codec.SubstringMatchAcceptsOtherSn`).

## Findings

| source | as written | input that shows it | evidently intended | confidence | as-written member | corrected member |
|---|---|---|---|---|---|---|
| custom_components/hass_cozylife_local_pull/light.py:161-168 | The mired value is clamped to `[153, 500]`, and 153 mireds convert to 6535 K. | A device colour-temperature value of 1000 (coolest) is reported as 6535 K. The light advertises a maximum of 6500 K (`light.py:67-68`). | The reported temperature stays within the advertised `[2000, 6500]`. | medium, not executed | Light.ReadBack with Light.KelvinAsWritten (Light.KelvinAsWrittenExceedsMax, Light.ReadBackSpec) | Light.ReadBackCorrected with Light.Kelvin (Light.ReadBackCorrectedSpec, Light.KelvinRange) |
| custom_components/hass_cozylife_local_pull/switch.py:21-33 | The switch platform takes only type code `00`, and the light platform only `01`. | A socket with type code `02` is in `SUPPORT_DEVICE_CATEGORY` (`const.py:10-16`), so set-up registers it, but no entity is created for it. | Sockets get a switch entity, like the other switch-like type. | medium, not executed | Switch.SwitchClients (Switch.SocketGetsNoEntity) | Switch.SwitchLikeClients (Switch.EveryCategoryGetsEntity) |
