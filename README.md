# Porto client transport and utility helpers, modelled in Dafny

This project models two parts of the Porto container manager.

The first is the Python client transport `_RPC` (`src/api/python/porto/connection.py`). It covers:

- how a request is framed (a varint length, then the payload);
- how frames are read back from the socket, byte by byte for the length, then in `recv` chunks for the payload;
- how `AsyncWait` push notifications read while waiting are handed to the stored callback;
- how `call` connects, reconnects, resends once, widens and restores the timeout, and turns socket faults into `SocketTimeout` / `SocketError`;
- how `_connect` replays the stored subscription;
- how the client reads `"true"` and `"false"` property values as booleans, writes values back, and spells indexed property names.

The second is the C++ helpers in `util/string.cpp` and `util/unix.cpp`:

- joining with commas, over a vector and over a set;
- converting strings with `stoi`, `stoul`, `stoull` and `stoll` under their C-locale, 64-bit (LP64) semantics;
- sizes with a K/M/G suffix;
- splitting with `std::getline`;
- trimming blanks;
- the `RetryBusy` / `RetryFailed` loops.

Modules:

- `FrameCodec` (frame_codec.dfy): the varint length (unsigned LEB128) as a reference function `Header`, its decoder, and `EncodeRequest` as the loop `encode_request` runs.
- `SocketStream` (socket_stream.dfy): the receiving side of the socket as a script of `recv` events.
  - `Available` is the bytes delivered before the first timeout, error or end of stream.
  - `ReadExactly`, `ReadLength` and `ReadFrame` are what `_recv_data` and `_recv_response` read from it.
- `RpcSpec` (rpc_spec.dfy): the state of `_RPC` plus its environment, with one function per operation: `Connect`, `Call`, `Exchange` (with its receiving half `AwaitResponse`), `Resend`, `RecvResponse`, `SetTimeout`, `Disconnect`, `AsyncWait`.
- `Connection` (rpc.dfy): the classes `Host` (process, kernel and server, as a scripted object) and `Rpc` (the fields of `_RPC`). Every `Rpc` method updates its fields in place and is proved to reach exactly the state the matching `RpcSpec` function gives.
- `RpcProperties` (rpc_properties.dfy): what the transport promises, proved about `RpcSpec`.
- `PropertyValues` (property_values.dfy): value coercion and property names.
- `CxxNumbers` (cxx_numbers.dfy): `std::stoi`, `stoll` and `stoull` (and `stoul` on LP64) as functions returning the value and the end position, or None where they throw.
- `StringUtil` (string_util.dfy): the helpers of `util/string.cpp`. Each output parameter becomes a result of the method; each `TError` becomes a datatype value.
- `Retry` (retry.dfy): `RetryBusy` and `RetryFailed` over a handler oracle. The oracle gives each call's return value and the `errno` it leaves.

Where the code and the written design disagree, the model follows the code:

- A `socket.timeout` on the best-effort send in `call` (connection.py:147-149) clears the socket and raises. It does not reconnect; only other socket errors reconnect.
- A payload that the protobuf parser rejects escapes `call` unconverted. It leaves the socket in place and the timeout widened.
- Socket faults raised inside `_resend_async_wait` during `_connect` escape as raw `socket.timeout` / `socket.error`. They do not clear the new socket (`Exc.Escaped`).

## Model

| member | source | states |
|---|---|---|
| FrameCodec.EncodeRequest | src/api/python/porto/connection.py:119-127 | the frame is the reference varint header of the payload length followed by the payload unchanged |
| FrameCodec.DecodeHeader | src/api/python/porto/connection.py:100-106 | the length decoder fails exactly when no byte <= 0x7f arrives; otherwise it consumes up to and including the first byte <= 0x7f and every earlier byte has the continuation bit |
| FrameCodec.DecodeIsShiftSum | src/api/python/porto/connection.py:100-106 | the decoded length equals the or of `(b & 0x7f) << shift` over the consumed bytes, shift growing by 7 |
| FrameCodec.HeaderEndsAt | src/api/python/porto/connection.py:101-106 | a header whose first byte <= 0x7f is its k-th decodes to the shift-accumulated value of those k bytes |
| FrameCodec.HeaderRoundTrip | src/api/python/porto/connection.py:119-127 | decoding the encoded length followed by anything gives back the length and consumes exactly the header |
| FrameCodec.HeaderShape | src/api/python/porto/connection.py:123-126 | every header byte but the last has the continuation bit 0x80, the last does not |
| FrameCodec.HeaderSize | src/api/python/porto/connection.py:123-126 | a k-byte header holds exactly the lengths below 2^(7k) and, for k > 1, at least 2^(7(k-1)) |
| FrameCodec.HeaderBoundaries | src/api/python/porto/connection.py:123-126 | lengths 0, 127, 128, 16383 and 16384 take 1, 1, 2, 2 and 3 header bytes |
| SocketStream.RecvInside | src/api/python/porto/connection.py:90-94 | a `recv(n)` inside the available bytes returns between 1 and n of the next bytes and advances past them |
| SocketStream.RecvAtStop | src/api/python/porto/connection.py:91-93 | a `recv` after the available bytes returns the stopping event (empty chunk, timeout or error) and consumes it |
| SocketStream.RecvFront | src/api/python/porto/connection.py:90-94 | a `recv(n)` while bytes are available returns between 1 and n of the first of them and advances past them |
| SocketStream.DataStep | src/api/python/porto/connection.py:88-95 | one `recv` of `_recv_data`: a non-empty chunk is the next available bytes, no more than are still wanted; any other event is the fault that ends the whole read |
| SocketStream.LengthStep | src/api/python/porto/connection.py:101-106 | one length byte: a failed read fails the length; a byte read is the next available one and adds its 7-bit group at shift 7k; a byte <= 0x7f ends the length |
| SocketStream.ReadFrame | src/api/python/porto/connection.py:100-108 | a frame that is read makes progress through the available bytes |
| SocketStream.ReadFrameSteps | src/api/python/porto/connection.py:100-108 | reading a frame is reading the length, then exactly that many bytes from where the length ended; a failed length read fails the frame with the same fault |
| SocketStream.FrameRoundTrip | src/api/python/porto/connection.py:100-108 | a stream carrying an encoded frame yields exactly its payload and is left just after it |
| RpcSpec.WithSockTimeout | src/api/python/porto/connection.py:60-64 | `_set_timeout` sets blocking for None and base plus extra otherwise, keeps the socket and changes nothing else |
| RpcSpec.RecvResponse | src/api/python/porto/connection.py:97-117 | the receive loop never returns a push |
| RpcSpec.RecvResponsePush | src/api/python/porto/connection.py:110-115 | a push frame is delivered to a set callback and reading continues after it |
| RpcSpec.RecvResponseStop | src/api/python/porto/connection.py:102-117 | the loop stops at a failed read, an unparsable payload (Malformed) or a non-push frame, which it returns |
| RpcSpec.Deliveries | src/api/python/porto/connection.py:111-115 | one callback invocation per push, in order, when a callback is set, and none otherwise |
| RpcSpec.RecvState | src/api/python/porto/connection.py:97-117 | receiving changes only the remaining input and the callback log |
| RpcSpec.Resend | src/api/python/porto/connection.py:191-203 | the replay sends only the stored-names subscription (nothing without names), never touches socket, owner pid, socket ids or closes |
| RpcSpec.Connect | src/api/python/porto/connection.py:72-86 | success holds a fresh socket owned by this pid; a socket, when held, is the new one; only socket, pid and environment change |
| RpcSpec.Exchange | src/api/python/porto/connection.py:153-175 | sends at most once; SocketTimeout/SocketError clear the socket; a return, a PortoException or an escaped fault keep it; a returned frame is a success response |
| RpcSpec.AwaitResponse | src/api/python/porto/connection.py:157-175 | sends nothing; SocketTimeout/SocketError clear the socket; a return, a PortoException or an escaped fault keep it; a returned frame is a success response |
| RpcSpec.Call | src/api/python/porto/connection.py:129-175 | call changes only socket, owner pid and environment, never the pid or the closed-socket log |
| RpcSpec.Disconnect | src/api/python/porto/connection.py:181-185 | afterwards no socket is held; the held socket, and only it, is closed |
| RpcSpec.SetTimeout | src/api/python/porto/connection.py:66-70 | the base timeout is stored and applied to a held socket only |
| RpcSpec.AsyncWait | src/api/python/porto/connection.py:205-209 | names, callback and timeout are stored before the call |
| Connection.Rpc.constructor | src/api/python/porto/connection.py:47-58 | the object starts with no socket and no subscription |
| Connection.Rpc.ApplyTimeout | src/api/python/porto/connection.py:60-64 | the new state is `WithSockTimeout` of the old |
| Connection.Rpc.SetTimeout | src/api/python/porto/connection.py:66-70 | the new state is `RpcSpec.SetTimeout` of the old |
| Connection.Rpc.DoConnect | src/api/python/porto/connection.py:72-86 | the new state and the raised exception are `RpcSpec.Connect` of the old state |
| Connection.Rpc.Connect | src/api/python/porto/connection.py:177-179 | as `DoConnect` |
| Connection.Rpc.Disconnect | src/api/python/porto/connection.py:181-185 | the new state is `RpcSpec.Disconnect` of the old |
| Connection.Rpc.Connected | src/api/python/porto/connection.py:187-189 | true exactly when a socket is held |
| Connection.Rpc.RecvData | src/api/python/porto/connection.py:88-95 | the recv loop yields `ReadExactly`: the next `count` available bytes, or the fault that cuts them short (an empty chunk is a reset) |
| Connection.Rpc.RecvLength | src/api/python/porto/connection.py:100-106 | the byte-at-a-time loop yields `ReadLength`, the decoded varint and the input after it |
| Connection.Rpc.RecvResponse | src/api/python/porto/connection.py:97-117 | the loop yields `RpcSpec.RecvResponse`: response, remaining input and callback log |
| Connection.Rpc.ResendAsyncWait | src/api/python/porto/connection.py:191-203 | the new state and exception are `Resend` of the old state |
| Connection.Rpc.Call | src/api/python/porto/connection.py:129-175 | the new state and outcome are `RpcSpec.Call` of the old state |
| Connection.Rpc.Exchange | src/api/python/porto/connection.py:153-175 | the new state and outcome are `RpcSpec.Exchange` of the old state |
| Connection.Rpc.AwaitResponse | src/api/python/porto/connection.py:157-175 | the new state and outcome are `RpcSpec.AwaitResponse` of the old state |
| Connection.Rpc.AsyncWait | src/api/python/porto/connection.py:205-218 | the new state and outcome are `RpcSpec.AsyncWait` of the old state |
| RpcProperties.RecvResponseDelivers | src/api/python/porto/connection.py:99-117 | every push read before the response reaches the callback exactly once, in order, and none does without a callback |
| RpcProperties.DeliversAfterPush | src/api/python/porto/connection.py:110-115 | a push at the head of the stream is delivered before the deliveries of the rest of the loop |
| RpcProperties.DeliversAtStop | src/api/python/porto/connection.py:102-117 | when the first frame is not a push, nothing is delivered |
| RpcProperties.SkippedPushesPush | src/api/python/porto/connection.py:110-115 | reading a push puts its event first among the pushes skipped |
| RpcProperties.DeliveriesCons | src/api/python/porto/connection.py:111-115 | the deliveries of pushes headed by one push start with that push's delivery, when a callback is set |
| RpcProperties.DeliveriesAfter | src/api/python/porto/connection.py:111-115 | delivering one push and then the rest is delivering them all |
| RpcProperties.PushThenResponse | src/api/python/porto/connection.py:99-117 | a push frame then a response frame: one callback invocation, the response returned, the input left after the second frame |
| RpcProperties.CallNotConnected | src/api/python/porto/connection.py:133-137 | without auto-reconnect and socket, call raises "not connected" and changes nothing |
| RpcProperties.CallFromOtherPid | src/api/python/porto/connection.py:138-142 | without auto-reconnect, a socket of another pid makes call raise and changes nothing |
| RpcProperties.CallFirstSendSucceeds | src/api/python/porto/connection.py:143-146 | a successful best-effort send is the only send |
| RpcProperties.CallFirstSendTimesOut | src/api/python/porto/connection.py:147-149 | a timeout on the best-effort send clears the socket, raises SocketTimeout, reads nothing and opens no socket |
| RpcProperties.CallResendsOnce | src/api/python/porto/connection.py:150-155 | another send error reconnects, replays the subscription and sends the request once more on the new socket |
| RpcProperties.CallSendsAtMostTwice | src/api/python/porto/connection.py:143-155 | with a usable socket the request is sent at most twice, the second time only after a reconnect and replay |
| RpcProperties.CallReconnectsAndResubscribes | src/api/python/porto/connection.py:133-140 | with auto-reconnect and no socket, or a socket of another pid, call connects, replays the subscription, then sends the request, and closes no socket |
| RpcProperties.TransportFaultClearsSocket | src/api/python/porto/connection.py:165-170 | a call ending in SocketTimeout, SocketError for a transport fault or SocketError for a failed connect leaves no socket (the "not connected" and other-pid SocketErrors keep the state, see CallNotConnected and CallFromOtherPid) |
| RpcProperties.ReconnectFaultClears | src/api/python/porto/connection.py:133-155 | reconnecting and then exchanging: a transport fault in either step leaves no socket |
| RpcProperties.ProtocolErrorKeepsSocket | src/api/python/porto/connection.py:172-173 | a PortoException leaves the socket in place, owned by this pid |
| RpcProperties.ReturnedIsSuccess | src/api/python/porto/connection.py:172-175 | a returned response has the success status and the socket stays, owned by this pid |
| RpcProperties.TimeoutRestored | src/api/python/porto/connection.py:157-163 | after a response a widened timeout is back at the base timeout |
| RpcProperties.CallKeepsInv | src/api/python/porto/connection.py:129-175 | call keeps the invariant that a held socket exists and has a recorded owner |
| RpcProperties.InitialInv | src/api/python/porto/connection.py:47-58 | a fresh object satisfies that invariant |
| RpcProperties.OperationsKeepInv | src/api/python/porto/connection.py:66-86 | connect, disconnect, set_timeout and async_wait keep that invariant too |
| RpcProperties.ConnectFailure | src/api/python/porto/connection.py:78-83 | a failed connect leaves no socket, keeps the recorded pid and sends nothing |
| RpcProperties.ConnectReplays | src/api/python/porto/connection.py:75-86 | a connect that gets through holds the new socket with the base timeout, records this pid and replays the subscription |
| RpcProperties.ReplayIdle | src/api/python/porto/connection.py:192-193 | with no stored names the replay does nothing |
| RpcProperties.ReplayNeedsSuccess | src/api/python/porto/connection.py:200-203 | the replay succeeds exactly when its send went through and the acknowledgement has the success status |
| RpcProperties.AsyncWaitReplaysWithoutLabels | src/api/python/porto/connection.py:205-218 | the stored subscription replays names and timeout but not labels |
| RpcProperties.DisconnectIdempotent | src/api/python/porto/connection.py:181-185 | disconnecting twice is disconnecting once |
| PropertyValues.DecodeValue | src/api/python/porto/connection.py:426-430 | exactly "true" and "false" read as booleans (true iff "true"); anything else stays the same text |
| PropertyValues.EncodeValue | src/api/python/porto/connection.py:433-440 | a boolean is written so that it reads back as that boolean, None as the empty string, a string and any other value as their text |
| PropertyValues.BoolRoundTrip | src/api/python/porto/connection.py:433-436 | a boolean written with SetProperty reads back as the same boolean |
| PropertyValues.TextRoundTrip | src/api/python/porto/connection.py:439-440 | a string reads back unchanged exactly when it is neither "true" nor "false" |
| PropertyValues.NoneReadsEmpty | src/api/python/porto/connection.py:437-438 | None is written as "" and reads back as empty text |
| PropertyValues.DecodeThenEncode | src/api/python/porto/connection.py:404-409 | every value string survives being read and written back |
| PropertyValues.PropertyName | src/api/python/porto/connection.py:417-422 | the sent name starts with the base name; it is the base name exactly when neither a tuple nor an index is given; otherwise the rest is `[` key `]`, with the tuple's key winning over the index |
| PropertyValues.PropertyNameRoundTrip | src/api/python/porto/connection.py:417-422 | a name without `[` composed with an index parses back into that name and index |
| PropertyValues.PairIsIndexed | src/api/python/porto/connection.py:445-448 | the tuple form names the same property as the index form, whatever index is also given |
| CxxNumbers.Stoi | util/string.cpp:75 | `stoi` succeeds exactly when a decimal is found and its signed value lies in `int`; the value is in range and the end position inside the string |
| CxxNumbers.Stoll | util/string.cpp:65 | the same for `stoll` and `long long` |
| CxxNumbers.Stoull | util/string.cpp:55 | `stoull` succeeds exactly when a decimal is found whose magnitude fits in 64 bits; a minus sign negates modulo 2^64 |
| CxxNumbers.ScanDecimal | util/string.cpp:55 | a scan ends just after a digit, at the end or before a non-digit |
| CxxNumbers.ScanIs | util/string.cpp:55 | a scan with known blanks, sign and maximal digit run is that sign and the value of those digits, ending after them |
| CxxNumbers.ScanSignedIs | util/string.cpp:55 | once the sign is placed and the digit run has length n > 0, the scan is that sign and the run's value |
| CxxNumbers.DecimalScan | util/string.cpp:86 | white space, a sign and the decimal rendering of n, then a non-digit, scan as n with that sign, ending after the digits |
| CxxNumbers.StoullDecimal | util/string.cpp:55 | `stoull` reads the decimal rendering of n back as n exactly when n < 2^64 |
| CxxNumbers.StoullNegative | util/string.cpp:55 | `stoull("-n")` is 2^64 - n |
| CxxNumbers.NegatedInRange | util/string.cpp:55 | helper of StoullNegative: negating a non-zero 64-bit magnitude modulo 2^64 gives 2^64 - n without reduction |
| CxxNumbers.StoiSignedDecimal | util/string.cpp:75 | `stoi` of blanks, a sign and a decimal gives the signed value when it fits in `int` and fails otherwise |
| CxxNumbers.StollSignedDecimal | util/string.cpp:65 | the same for `stoll` and `long long` |
| CxxNumbers.NoDigitsRejected | util/string.cpp:34 | a string whose first non-blank is neither a sign nor a digit is rejected by every conversion |
| StringUtil.BadInteger | util/string.cpp:36 | the conversion failure is an `Unknown` error |
| StringUtil.JoinSnoc | util/string.cpp:12-16 | appending an element to a non-empty list appends a comma and that element to the join |
| StringUtil.JoinAppend | util/string.cpp:12-16 | appending an element to any list appends it to the join, after a comma unless the list was empty |
| StringUtil.CommaSeparatedList | util/string.cpp:10-18 | the result is the elements joined with commas |
| StringUtil.LessTransitive | util/string.cpp:20-28 | string order is transitive |
| StringUtil.LessTotal | util/string.cpp:20-28 | any two distinct strings are ordered |
| StringUtil.LessIrreflexive | util/string.cpp:20-28 | no string is less than itself |
| StringUtil.LeastOf | util/string.cpp:22 | the element found is the first in set order |
| StringUtil.AscendingFacts | util/string.cpp:20-28 | the set order lists every element once, strictly ascending |
| StringUtil.AscendingUnique | util/string.cpp:20-28 | any strictly ascending listing of exactly the set's elements is the set order |
| StringUtil.AscendingStep | util/string.cpp:20-28 | taking the least remaining element moves it from the set order of the rest to the end of what is done |
| StringUtil.CommaSeparatedSet | util/string.cpp:20-28 | the result is the elements in set order joined with commas |
| StringUtil.ParsedAt | util/string.cpp:32-38 | a string reached while all earlier ones parsed is converted exactly when the parsed prefix covers it, to its `stoi` value |
| StringUtil.ParsedFacts | util/string.cpp:32-38 | each collected value is its string's `stoi` value, and collection stops only at a string `stoi` rejects |
| StringUtil.StringsToIntegers | util/string.cpp:30-41 | the values of the parsed prefix are appended; success exactly when every string parsed, otherwise the error, with earlier values kept |
| StringUtil.StringToUint64 | util/string.cpp:53-61 | success with the `stoull` value, or the error with the value unchanged |
| StringUtil.StringToInt64 | util/string.cpp:63-71 | success with the `stoll` value, or the error with the value unchanged |
| StringUtil.StringToInt | util/string.cpp:73-81 | success with the `stoi` value, or the error with the value unchanged |
| StringUtil.Uint32AsWritten | util/string.cpp:45 | the stored value is the `stoul` value modulo 2^32, accepted whenever `stoul` accepts |
| StringUtil.StringToUint32 | util/string.cpp:43-51 | success with the wrapped value, or the error with the value unchanged |
| StringUtil.Uint32Truncates | util/string.cpp:45 | every decimal n from 2^32 to 2^64 - 1 is accepted and stored as n mod 2^32, not n |
| StringUtil.Uint32Checked | util/string.cpp:43-51 | accepted exactly when `stoul` accepts and the value is below 2^32, which is then stored unchanged |
| StringUtil.Uint32CheckedDecimal | util/string.cpp:43-51 | with the range check the decimal rendering of n reads back as n exactly when n < 2^32 |
| StringUtil.StringToUint32Checked | util/string.cpp:43-51 | success with the checked value, or the error with the value unchanged |
| StringUtil.UnitFactor | util/string.cpp:88-100 | G/g multiply by 2^30, M/m by 2^20, K/k by 2^10, anything else by 1 |
| StringUtil.WithUnit | util/string.cpp:83-107 | a size is accepted exactly when `stoull` accepts it and lies below 2^64 |
| StringUtil.ShiftsMultiply | util/string.cpp:91-97 | one, two and three `<<= 10` on a 64-bit value multiply by 2^10, 2^20 and 2^30 modulo 2^64 |
| StringUtil.StringWithUnitToUint64 | util/string.cpp:83-107 | the falling-through shifts store `WithUnit`, or the error with the value unchanged |
| StringUtil.WithUnitSuffix | util/string.cpp:86-100 | a number followed by a non-digit unit letter scales by its factor, wrapping at 2^64, and exactly when it fits |
| StringUtil.StoullThenSuffix | util/string.cpp:86 | `stoull` stops at the first character after the digits of n and reads n |
| StringUtil.WithUnitAt | util/string.cpp:86-100 | the character where `stoull` stopped selects the factor, wrapping at 2^64 |
| StringUtil.FitsUnwrapped | util/string.cpp:91-97 | helper of WithUnitSuffix: a product that fits in 64 bits is not changed by the wrap-around |
| StringUtil.WithUnitPlain | util/string.cpp:86-87 | a number with nothing after it is stored as it is |
| StringUtil.FindSepFacts | util/string.cpp:114 | the separator found is the first, and none is found only where there is none |
| StringUtil.TokenAt | util/string.cpp:114-115 | the token at a position runs to the next separator or the end |
| StringUtil.SplitString | util/string.cpp:109-121 | success, with the `getline` tokens of s appended to the given tokens |
| StringUtil.TokensHaveNoSep | util/string.cpp:114-115 | no token contains the separator |
| StringUtil.JoinTokens | util/string.cpp:109-121 | joining the tokens with the separator gives s back unless s ends with the separator |
| StringUtil.TrailingSep | util/string.cpp:114-115 | a trailing separator adds no empty token |
| StringUtil.SplitJoin | util/string.cpp:109-121 | splitting a join gives the list back when no element holds the separator and the last is not empty |
| StringUtil.FirstFacts | util/string.cpp:125 | only blanks precede the first non-blank, and there is none only in an all-blank string |
| StringUtil.LastFacts | util/string.cpp:126 | only blanks follow the last non-blank, and there is none only in an all-blank string |
| StringUtil.StringTrim | util/string.cpp:123-128 | a trimmed result is non-empty and starts and ends with a non-blank |
| StringUtil.TrimFailsOnBlank | util/string.cpp:123-128 | trimming fails (out_of_range) exactly for an empty or all-blank string |
| StringUtil.TrimRemovesBlanks | util/string.cpp:123-128 | the string is the trimmed text with blanks before and after |
| StringUtil.TrimPadded | util/string.cpp:123-128 | blanks around a text with non-blank ends are exactly what is removed |
| StringUtil.PaddedFirst | util/string.cpp:125 | the first non-blank of a padded text is the first character of the text |
| StringUtil.PaddedLast | util/string.cpp:126 | the last non-blank of a padded text is the last character of the text |
| StringUtil.PaddedMiddle | util/string.cpp:127 | the text sits right after the leading blanks |
| StringUtil.TrimKnownEnds | util/string.cpp:125-127 | a text found between the first and the last non-blank is what trimming returns |
| StringUtil.TrimBetween | util/string.cpp:125-127 | trimming keeps exactly what lies from the first to the last non-blank |
| StringUtil.TrimIdempotent | util/string.cpp:123-128 | trimming a trimmed string changes nothing |
| Retry.Budget | util/unix.cpp:11-12 | a `times` of 0 allows one attempt, any other `times` that many |
| Retry.FirstStop | util/unix.cpp:14-19 | the attempt found is the first that stops the loop, or the budget when none does |
| Retry.FirstStopFromLarger | util/unix.cpp:14-19 | helper of LargerBudgetSameStop: a larger bound finds the same stopping attempt, and none earlier |
| Retry.LargerBudgetSameStop | util/unix.cpp:14-19 | once the loop stops within `times` attempts, any larger `times` stops at the same attempt, so the calls made and the result returned do not change |
| Retry.RetryLoop | util/unix.cpp:14-21 | the calls up to and including the stopping one, or all; one sleep after every earlier attempt; the last call's result |
| Retry.RetryBusy | util/unix.cpp:8-22 | the loop with stop condition `errno != EBUSY`, at least one attempt |
| Retry.RetryFailed | util/unix.cpp:24-38 | the loop with stop condition `ret >= 0`, at least one attempt |
| Retry.BusyOutcome | util/unix.cpp:14-21 | the final errno is EBUSY exactly when every attempt was busy |
| Retry.FailedOutcome | util/unix.cpp:30-37 | the result is non-negative exactly when some attempt succeeded |

## Left out

- The lock of `_RPC` and all concurrency: each operation runs alone; the lock only serialises them.
- Timeouts are whole seconds (`int`), not floats; `int(timeout * 1000)` is `timeout * 1000`.
- Protocol Buffers serialisation and parsing are parameters (`Codec`); the response fields other than status, message and push fields are opaque bytes.
- Real sockets, `os.getpid`, `usleep` and the handler of the retry loops are scripted inputs or logs: an exhausted script connects, sends and reads end of stream.
- `sendall` is one atomic attempt: partial sends are not modelled.
- The `SOCK_CLOEXEC` flag and the socket path are not modelled.
- Container, volume and other high-level calls of `Connection` are not modelled; only the value coercion and name spelling they share are.
- `SplitString`'s `catch` (allocation failure) is not reachable in the model: it always succeeds.
- Locales other than "C" are not modelled for the `sto*` conversions; the white space skipped is `" \t\n\v\f\r"`.
- RpcProperties.PushThenResponse: stated over two successful frame reads, not over the raw bytes of the two frames.
- Retry.RetryBusy: `times` is a `nat`; a negative `times` would loop until `int` wrap-around (undefined behaviour) and is not modelled.
- Retry.RetryFailed: the same restriction to a non-negative `times`.
- StringUtil.CommaSeparatedSet: the in-order walk of the `std::set` is modelled by taking the least remaining element each step.

## Findings

| source | as written | input that shows it | evidently intended | confidence | as-written member | corrected member |
|---|---|---|---|---|---|---|
| util/string.cpp:45 | `value = stoul(str)` stores the 64-bit result in a `uint32_t`, so any value from 2^32 to 2^64 - 1 is silently reduced modulo 2^32 and reported as success | "4294967296" stores 0 with success | a value that does not fit in 32 bits is rejected with "Bad integer value" | not executed | StringUtil.Uint32Truncates | StringUtil.Uint32CheckedDecimal |
