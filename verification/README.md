# WinTab adapter: verified model

The adapter receives WinTab driver messages in a window, folds them into an OTD-IPC v2 tablet state,
and serves device and state to clients over a Unix socket (V2) and, on request, over a named pipe in
an older form (V1). This project models that path in Dafny 4.11 and proves what it keeps.
`dafny verify dfyconfig.toml` checks everything.

## How it is modelled

| file | what it holds |
|---|---|
| `SessionProtocol.dfy`, `SessionProofs.dfy` | the accept, ping and window threads of both servers as one state machine, and what every schedule keeps |
| `SessionWitnesses.dfy`, `FirstDevice.dfy` | schedules that reach a ping before Hello and half-written devices; exactly which devices one SetDevice call can put on the wire |
| `SplitCopy.dfy`, `PingIds.dfy` | a finer machine in which a send copies the stored device cell by cell; the IDs V1 pings carry while the device is stored |
| `Protocols.dfy` | what tells the two servers apart: Hello, idle pings, the handle after a session |
| `DeviceLayouts.dfy` | the V1 and V2 device messages and the stores their `SetDevice` makes: the two instances of the machine |
| `Server.dfy` | the servers' methods as sequential code; an uninterrupted call is a run of the machine |
| `TabletState.dfy`, `WintabTablet.dfy` | the tablet state, driver messages, and the event machine as a class |
| `V1State.dfy` | the V1 form of the state: its meaning and what it loses |
| `Binary32.dfy` | conversion to `float` and `float` subtraction on integers |
| `Fnv1a.dfy`, `Bits.dfy` | the hash behind V1 vendor and product IDs; bitwise operations on naturals |
| `Framing.dfy`, `FrameParser.dfy`, `Messages.dfy` | the read loop, the reused receive buffer, the frame parser, Hello and debug messages |
| `FixedBuffer.dfy` | NUL-padded fields, trimming of driver strings, the persistent ID |
| `ForegroundOverride.dfy` | the mutex and shared window used across processes |
| `FanOut.dfy`, `Delivery.dfy` | handler wiring, start-up order and message dispatch; from the tablet's states to the State frames of the sessions |

**Threads.** The servers share the client handle and the stored device with no lock. The machine
splits every field store, the size check, the handle test, the handle fetch, the send and the reset
into separate steps and allows every interleaving of them. It assumes sequential consistency, because
a C++ data race has no defined behaviour. One `send` or `WriteFile` call is atomic and reads the
message memory when it happens; `SplitCopy.dfy` drops this and gives the exact condition under which
nothing changes. A send on a handle that is no longer installed fails, because moving in a new handle
or resetting it closes the old one; handle values are not reused. A send on the installed handle may
succeed or fail at any time. An action that is not enabled changes nothing, so
every sequence of actions is a schedule. The history components `latest`, `fates`, `ticks` and
`early` are read by no step.

**Driver and sockets.** WinTab calls are parameters, and so are the chunks and errors of `recv`, among
them the error for a length that is negative as an `int`. A packet that reports Z has `pkZ >= 0`, and an extension
packet has `nControl < 32`. The extent does not overflow `LONG`. Messages reach the window only from
the main loop, after the tablet has been constructed; `PresentIff` and `StateBeforeDevice` show what
this assumption is for.

**Numbers.** A float is represented by the integer it stands for; every float here is integral.
`uint32_t` products wrap explicitly. `char` is signed in `GetInfoString`, so bytes from 128 up count
as junk. `Hello`, `Ping` and `DeviceInfo` sizes pass through the same 32-bit size field as any other.

**Where the code and its comments disagree, the code is followed.** The comment above the V1 name copy
promises NUL termination; `V1NameTerminated` gives the exact condition. The comment in V1's
`AcceptOnce` says there is no ping; `PingLoop` sends one each second. `ReadNBytes` never advances its
destination pointer; `ReadByte` and `ReadExactIff` give the exact result. `ForegroundOverride::Get`
takes a failed acquire to mean that the override is in place; `StaleIff` says for every call exactly
when it is not. `main` builds a `DeviceLogger` but passes the server list to the tablet directly, so
the logger sees nothing and is not modelled.

## Model

| member | source | states |
|---|---|---|
| SessionProofs.NoLostDevice | src/V2Server.cpp:190-205 | in every schedule, whenever SetDevice is idle, the handshake is over and the session's handle is still installed, the last DeviceInfo that session received is the complete latest device |
| SessionProofs.NoStaleDevice | src/V2Server.cpp:328-334 | while SetDevice is idle no step of any thread sends any device but the complete latest one; each step adds at most one frame to a session |
| SessionProofs.SizeCheckNeverFires | src/V2Server.cpp:310-312 | in every schedule the size mismatch is never thrown for a DeviceInfo, even while it is being rewritten, nor for any message below 2^32 bytes |
| SessionProofs.SizeCheckIff | src/V2Server.cpp:47-52 | some schedule throws it for Hello, or for a ping, exactly when that struct does not fit the 32-bit size field |
| DeviceLayouts.NoServerThrows | src/V2Server.cpp:310-312 | with the sizes of the two protocols neither server ever throws it for Hello, Ping or DeviceInfo |
| SessionProofs.SizeCheckFiresIff | src/V2Server.cpp:344-363 | a debug message throws it exactly when its total length does not fit 32 bits |
| SessionProofs.PingNumbering | src/V2Server.cpp:149-166 | ping numbers delivered over all sessions strictly increase and are exactly those whose send succeeded; a server that pings regardless of clients numbers every tick |
| SessionProofs.HelloOrder | src/V2Server.cpp:190-205 | when Hello fits the size field, every session gets at most one Hello, before any device the accept thread sends, and first exactly when no other thread delivered a frame between publishing the socket and sending Hello |
| Protocols.V2Greets | src/V2Server.cpp:190-205 | for V2 itself: in every schedule every session is orderly in that sense, and an installed client whose Hello is over has received exactly one |
| Protocols.StructSizes | src/V2Server.cpp:47-52 | the sizes given to SendRaw are those of the Hello, Ping and DeviceInfo structs |
| Protocols.V1NeverGreets | src/V1Server.cpp:101-106 | no V1 client ever receives a Hello |
| Protocols.V1NumbersEveryTick | src/V1Server.cpp:124-132 | V1's counter is the number of timer ticks, client or not |
| Protocols.V2TickNeedsClient | src/V2Server.cpp:156-163 | V2 starts a ping at a tick exactly when a client is installed; an idle tick leaves the counter alone |
| Protocols.V1Clears | src/V1Server.cpp:121 | whenever V1's AcceptOnce has returned, no pipe is installed |
| Protocols.V2KeepsDeadClient | src/V2Server.cpp:226-230 | V2 returns from a failed read without a reset, so the dead client can stay installed |
| SessionWitnesses.PingBeforeHello | src/V2Server.cpp:190-201 | a schedule in which a ping precedes Hello, so Hello-first is not unconditional |
| SessionWitnesses.TornDeviceIsSent | src/V1Server.cpp:101-106 | with or without an earlier device, if the ready flag is set after m stores of SetDevice, then for every later store n some schedule makes the accept thread send the memory as it is after n stores |
| FirstDevice.ReceivedIff | src/V1Server.cpp:101-171 | over all schedules with one SetDevice call, as in the program, the devices that reach some client are exactly the memory images after k stores, for every k by which the ready flag has been set |
| SplitCopy.SplitCopySafeIff | src/V2Server.cpp:316-320 | if a send copies the message cell by cell, with clients coming and going and sends failing at any time, every run leaves every installed client with the complete device exactly when the memory is complete from the store that makes it ready on |
| SplitCopy.V2SplitCopySafe | src/V2Server.cpp:328-334 | V2 meets that condition for every device |
| SplitCopy.V1SplitCopyTorn | src/V1Server.cpp:156-168 | V1 does not: a run in which the device marked valid with zero limits and name is queued after the complete one |
| SessionProofs.FinishedDevice | src/V1Server.cpp:153-168 | the stores of a SetDevice leave the same message whatever was in memory before |
| SessionProofs.Reachable | src/V1Server.cpp:70-151 | the invariants behind the results above hold after every schedule of either server |
| DeviceLayouts.V1Stored | src/V1Server.cpp:153-168 | V1's stores, in program order, add up to the intended message: header, isValid, limits, name padded to 64 units |
| DeviceLayouts.V1Valid | src/V1Server.cpp:156-168 | those stores write every field, never a wrong size, and isValid only after the size |
| DeviceLayouts.V1NoLostDevice | src/V1Server.cpp:134-171 | the no-lost-device result for V1: a half-written DeviceInfo is always followed by the complete one |
| DeviceLayouts.V1ReceivedIff | src/V1Server.cpp:156-168 | with one SetDevice call a V1 client can receive exactly the memory images from the store of isValid on |
| DeviceLayouts.V1TornDevice | src/V1Server.cpp:156-160 | among them the device marked valid whose limits and name are all zero |
| DeviceLayouts.V1HalfWrittenDevice | src/V1Server.cpp:104-106 | were SetDevice called twice, a client could be sent the second header with every other field zero |
| DeviceLayouts.V1NameTerminated | src/V1Server.cpp:162-168 | the stored name holds a NUL exactly when it has fewer than 64 units or brings its own |
| DeviceLayouts.V1DevicesTellApart | src/V1Server.cpp:153-156 | devices whose persistent IDs differ in one byte get different V1 messages even if everything else is equal |
| DeviceLayouts.V2Stored | src/V2Server.cpp:328-331 | V2's stores leave the optional engaged and the message equal to the device given |
| DeviceLayouts.V2Valid | src/V2Server.cpp:328-331 | those stores write every field, never a wrong size, and engage the optional only after the size |
| DeviceLayouts.V2NoLostDevice | src/V2Server.cpp:310-334 | the no-lost-device result for V2 |
| DeviceLayouts.V2ReceivedIff | src/V2Server.cpp:328-331 | with one SetDevice call a V2 client can receive the complete device and no other |
| DeviceLayouts.ClientReadsTablet | src/WintabTablet.cpp:221-245 | end to end from the raw driver answers: in every schedule, the last DeviceInfo on a finished handshake reads as type 1, size 536, tablet ID 0, the rounded limits, the tagged ID and the name, each string being the first bytes the driver wrote up to the last one above 32 |
| DeviceLayouts.V1ClientReadsTablet | src/V1Server.cpp:153-171 | the same for V1: type 1, size 156, vendor and product ID the low and high half of the hash of the ID's bytes, valid, the rounded limits, the name cut to 64 units |
| PingIds.PingIdsIff | src/V1Server.cpp:124-132 | over all schedules with one SetDevice call, the ID pairs a V1 ping can carry are exactly none, the vendor ID alone, both, and, if the vendor ID is read first, the product ID alone |
| Server.SendWholeIsSteps | src/V2Server.cpp:310-326 | SendRaw as one operation equals its atomic steps with nobody else moving |
| Server.SessionServer.SendRaw | src/V2Server.cpp:310-326 | throws on a size mismatch, sends nothing without a client, appends one whole frame on success, resets the handle on failure |
| Server.SetDeviceRun | src/V1Server.cpp:153-171 | an uninterrupted SetDevice is a run of the protocol that stores the complete device and sends it once |
| Server.SessionServer.SetDevice | src/V2Server.cpp:328-334 | the sequential code ends in the state that run ends in |
| Server.PingRun | src/V1Server.cpp:124-132 | an uninterrupted ping round is a run of the protocol that adds one to the counter and sends that number, or does nothing when V2 has no client |
| Server.SessionServer.PingOnce | src/V2Server.cpp:149-166 | the sequential code ends in the state that run ends in; the counter moves unless V2 has no client |
| Server.HandshakeRun | src/V2Server.cpp:181-205 | an uninterrupted handshake is a run of the protocol |
| Server.SessionServer.Handshake | src/V2Server.cpp:190-205 | the sequential code ends in the state that run ends in |
| Binary32.RoundNearest | src/WintabTablet.cpp:221-222 | the conversion is round to nearest, ties to even: no float is nearer, and of two equally near ones it is the even one |
| Binary32.RoundIsFloat | src/WintabTablet.cpp:221-222 | the result always has at most 24 significant bits |
| Binary32.RoundMonotone | src/WintabTablet.cpp:316-320 | rounding preserves order, for negative numbers too |
| Binary32.FlipInRange | src/WintabTablet.cpp:319-322 | for every pkY on the tablet the reported y is between 0 and maxY |
| Binary32.FlipNearest | src/WintabTablet.cpp:319-322 | the reported y is a float, and no float is nearer to the difference of the float of the extent and the float of pkY |
| Binary32.RoundSymmetric | src/WintabTablet.cpp:316 | rounding treats both signs alike |
| Binary32.FlipAntitone | src/WintabTablet.cpp:319-322 | a larger pkY never gives a larger y |
| Binary32.FlipError | src/WintabTablet.cpp:319-322 | the three roundings cost at most one and a half units of the spacing at the extent |
| Binary32.FlipWithin192 | src/WintabTablet.cpp:197-201 | for every extent below 2^31 that is at most 192 units |
| Binary32.FlipExactIff | src/WintabTablet.cpp:319-322 | the flip is exact at every point exactly when the extent is at most 2^24 |
| Binary32.FlipTwice | src/WintabTablet.cpp:319-322 | then flipping again returns the driver's coordinate |
| Fnv1a.SynthesizeVidPid | src/V1Server.cpp:28-44 | the vendor ID is the low and the product ID the high half of the hash of all bytes in order |
| Fnv1a.PublishedValues | src/V1Server.cpp:31-33 | the hash has the published FNV-1a values for the empty string and for "a" |
| Fnv1a.AbsorbBijective | src/V1Server.cpp:36-39 | each byte step is a bijection on 32-bit words, undone with the modular inverse of the prime |
| Fnv1a.PrefixRecovered | src/V1Server.cpp:35-44 | the hash state after any prefix is recovered from the pair and the suffix by going backwards |
| Fnv1a.SharedSuffix | src/V1Server.cpp:28-44 | two IDs with a common suffix get the same pair exactly when what precedes it hashes alike |
| Fnv1a.OneByteSeparates | src/V1Server.cpp:28-44 | IDs that differ in one byte, anywhere, get different pairs |
| FixedBuffer.ToBuffer | src/WintabTablet.cpp:32-36 | the field ends as the text cut to its length and padded with NULs |
| FixedBuffer.Text | include/OTDIPC/DeviceInfo.hpp:29-37 | reads the longest NUL-free prefix of the field |
| FixedBuffer.CopyThenRead | src/V2Server.cpp:82-86 | copy then read gives the first N units cut at the first NUL |
| FixedBuffer.FieldRoundTrip | include/OTDIPC/DeviceInfo.hpp:29-37 | the text comes back unchanged exactly when it fits and is NUL-free |
| FixedBuffer.FieldTerminated | src/V1Server.cpp:163-168 | the field has a terminating NUL exactly when the text is shorter or brings its own |
| FixedBuffer.GetInfoString | src/WintabTablet.cpp:94-114 | the result is the first bytes the driver wrote, up to the last one above 32 within the reported count, or all of them if there is none, so trailing junk stays exactly then |
| FixedBuffer.TrimsIff | src/WintabTablet.cpp:102-111 | that reading of buffer and count fixes the result |
| FixedBuffer.EmptyIff | src/WintabTablet.cpp:104-111 | the string is empty exactly when the driver reported no bytes |
| FixedBuffer.InterfaceUsedIff | src/WintabTablet.cpp:228-243 | the interface ID makes a difference exactly when the driver reported no bytes of PnP ID |
| FixedBuffer.IdReadsBack | src/WintabTablet.cpp:228-243 | the persistent ID reads back as "wintab-pnpid:" and the first 243 bytes of the PnP ID, or else "wintab-id:" and the first 246 of the interface ID, cut at a NUL, or nothing |
| FixedBuffer.PnpIdsStayApart | src/WintabTablet.cpp:228-243 | PnP IDs of any length and content give persistent IDs that read alike exactly when their first 243 bytes, cut at the first NUL, are equal, whatever the interface IDs |
| FixedBuffer.BlankPnpIdHidesInterface | src/WintabTablet.cpp:104-111 | from the raw answer: a PnP ID of NULs only, however long, is not trimmed, counts as present and hides the interface ID |
| TabletState.HasDataBits | include/OTDIPC/State.hpp:43-46 | HasData of each mask is the conjunction of its bits |
| TabletState.ChangedBits | src/WintabTablet.cpp:315-332 | a packet reports buttons, X, Y, Z and pressure by bits 6 to 10 of pkChanged |
| TabletState.PressKeyBit | src/WintabTablet.cpp:344-349 | a key changes its own bit below 16 and no other; controls from 16 up change none |
| WintabTablet.LastReportWins | src/WintabTablet.cpp:287-335 | after every run of messages each field is that of the last successful packet with the field's bit of pkChanged set, its validity bit is set exactly when there was one, and an unreported field has its default |
| WintabTablet.AnsweredKinds | src/WintabTablet.cpp:287-355 | proximity and overlap messages are always answered, packets and extension packets when WTPacket succeeds, others never |
| WintabTablet.FoldButtons | src/WintabTablet.cpp:338-352 | aux bit k is set exactly when k is below 16 and the last extension packet for control k said down |
| WintabTablet.ValidityMonotone | include/OTDIPC/State.hpp:56-60 | validity bits never clear |
| WintabTablet.Tablet.ProcessPacket | src/WintabTablet.cpp:315-334 | the in-place updates for one packet, each field independent of the others |
| WintabTablet.Tablet.ProcessMessageImpl | src/WintabTablet.cpp:281-355 | keeps the state equal to the fold of the history; accepts exactly the messages listed; regains the context only when ours is no longer on top; a failed packet changes nothing |
| V1State.V1StateSender.SetDevice | src/V1Server.cpp:154-156 | the IDs that later states carry are those of the device's hash |
| V1State.V1StateSender.SetState | src/V1Server.cpp:173-212 | one message is handed to Send: the field-by-field translation of the state, with the stored device's IDs |
| V1State.EndToEnd | src/V1Server.cpp:173-212 | after every run of driver messages the V1 state sent carries the given IDs and is a direct reading of the history: position valid iff both axes were reported, last values, pen buttons without the tip, proximity valid iff nearness or hover was reported |
| V1State.DeviceThenState | src/V1Server.cpp:154-175 | after SetDevice(id) those IDs are the low and high half of the ID's hash |
| V1State.V1LosesExactly | src/V1Server.cpp:179-209 | two reachable states look the same to V1 exactly when they differ at most in the pen tip, in position while an axis is missing, and in which proximity bit is set |
| Framing.WireLayout | include/OTDIPC/Header.hpp:14-18 | a frame byte by byte: type, total size and tablet ID, little-endian, then the payload |
| Framing.AnyChunk | src/V2Server.cpp:65-77 | recv may return any positive number of the bytes that are there and asked for |
| Framing.ErrorEndsRead | src/V2Server.cpp:70-76 | an error ends the read at once, 10054 as a closed socket and any other as itself |
| Framing.ReadNBytes | src/V2Server.cpp:60-80 | follows the socket's answers one by one; the destination ends as each chunk laid over its start |
| Framing.ReadConsumes | src/V2Server.cpp:60-80 | for every chunking, success consumes exactly the bytes asked for, failure fewer, none lost or reordered |
| Framing.ReadByte | src/V2Server.cpp:62-77 | after any read, complete or failed, byte i ends as byte i of the last chunk longer than i, or untouched |
| Framing.SplitReadMissesLast | src/V2Server.cpp:62-77 | a complete read that came in two or more chunks never writes the last byte |
| Framing.ReadExactIff | src/V2Server.cpp:62-77 | a complete read leaves the stream's bytes, whatever the buffer held before, exactly when it came in at most one chunk |
| FrameParser.ParseRoundTrip | src/V2Server.cpp:209-268 | parsing the encoding of any sequence of frames gives those frames in order and then a closed socket |
| FrameParser.ReencodedFrame | include/OTDIPC/Header.hpp:14-18 | a frame that was read encodes to the bytes it was read from |
| FrameParser.ReadableIff | src/V2Server.cpp:65-66 | a size is read on exactly when its payload length, wrapped and cast to int, is not negative |
| FrameParser.ReadFrame | src/V2Server.cpp:224-244 | one iteration with header read, growth, payload read and refused lengths, exactly, for every chunking and failure |
| FrameParser.Serve | src/V2Server.cpp:207-268 | the loop over one reused buffer is the sequence of those iterations, for every chunking and failure |
| FrameParser.ViewsInside | src/V2Server.cpp:253-254 | however the stream is chunked, every Hello view has its 800 bytes inside the buffer and agrees with the frame read from it |
| FrameParser.FrameRightIff | src/V2Server.cpp:224-244 | a frame is read right whatever the buffer held before exactly when header and payload each came in at most one chunk |
| FrameParser.SessionRightIff | src/V2Server.cpp:207-268 | so all frames of a session are read right whatever is in the buffer exactly when they all came whole |
| FrameParser.SessionIsParse | src/V2Server.cpp:207-268 | then the loop visits exactly the reference parser's frames, ends as it does, and each view is its frame laid over the view before it |
| FrameParser.UnplannedIsWhole | src/V2Server.cpp:60-80 | this is so when each recv returns all it was asked for |
| Messages.SendDebugMessage | src/V2Server.cpp:344-358 | builds header and text as the wire format says |
| Messages.DebugRoundTrip | include/OTDIPC/DebugMessage.hpp:18-22 | message() returns the text unchanged exactly when the length fits the size field |
| Messages.DebugParses | src/V2Server.cpp:349-358 | the receiving parser sees one frame of type 4 with tablet ID 0 and the text |
| Messages.HelloRoundTrip | src/V2Server.cpp:253-261 | a Hello sent as any frame of a session whose frames come whole is read as type 6, size 800, tablet ID 0, the sender's protocol and compatibility version and three texts, each cut to 256 bytes and at its first NUL, whatever frames came before and whatever the buffer held |
| Messages.ServerHelloVersions | src/V2Server.cpp:28-29 | the server's Hello announces protocol version 0x022026020501 and compatibility version 1 |
| Messages.ShortHelloShowsLeftovers | src/V2Server.cpp:253-260 | past the end of a shorter frame the bytes looked at are those of the previous view |
| ForegroundOverride.WritersExclude | src/ForegroundOverride.cpp:29-39 | in every schedule writers on two threads never hold the override together |
| ForegroundOverride.SameThreadWritersCoexist | src/ForegroundOverride.cpp:34-39 | the mutex is recursive, so two writers on one thread do coexist |
| ForegroundOverride.BusyIff | src/ForegroundOverride.cpp:17-26 | Get reads the view exactly when another thread has a writer, is constructing one, or is probing |
| ForegroundOverride.EveryGet | src/ForegroundOverride.cpp:16-27 | whatever the interleaving, a thread that returns from Get has made an acquire, an IsWindow call exactly if that failed, and a return, in this order |
| ForegroundOverride.GetResult | src/ForegroundOverride.cpp:16-27 | what it returns in terms of the mutex at the acquire, the view and its window at the IsWindow call, and the view at the return |
| ForegroundOverride.Handoff | src/ForegroundOverride.cpp:12-27 | every Get on another thread that acquires and returns while a writer of w is published returns w if w is a window when Get asks, and null if not |
| ForegroundOverride.HandoffWhileItStays | src/ForegroundOverrideDll.cpp:12-41 | so do all the Gets a polling thread makes from publication on, however often it has polled before, while the writer's thread neither destroys it, nor ends, nor starts another |
| ForegroundOverride.OwnThreadGetsNull | src/ForegroundOverride.cpp:17-22 | every Get on a thread that has a writer returns null |
| ForegroundOverride.StaleIff | src/ForegroundOverride.cpp:16-27 | every Get in every schedule returns a window no writer stands for at any time from acquire to return exactly when another thread has the mutex at the acquire, the view shows a window without a writer, nothing is published before the return, and the window still exists when Get asks |
| ForegroundOverride.GetWithoutWriter | src/ForegroundOverride.cpp:17-27 | the case with no writer and no constructor: a window comes back exactly when another thread's Get was probing at the acquire and the window left in the view still existed |
| ForegroundOverride.StaleOverride | src/ForegroundOverride.cpp:17-27 | it happens: after the writer has gone, one reader's probe makes another reader return the old window |
| ForegroundOverride.StaleWhileConstructing | src/ForegroundOverride.cpp:12-15 | and: a reader returns it while the next writer has the mutex and has not stored its window |
| ForegroundOverride.StaleInnerWriter | src/ForegroundOverride.cpp:12-15 | and: the view keeps an inner writer's window while the outer writer of the same thread goes on |
| FanOut.MultiHandler.SetDevice | src/main.cpp:105-109 | every handler receives the device once |
| FanOut.MultiHandler.SetState | src/main.cpp:110-114 | every handler receives the state once |
| FanOut.Wire | src/main.cpp:154-161 | V2 is always wired, V1 after it when asked for |
| FanOut.Adapter.constructor | src/WintabTablet.cpp:245 | every handler has received the device, and nothing else, before any message |
| FanOut.Adapter.ProcessMessage | src/WintabTablet.cpp:258-279 | all handlers keep receiving the same sequence; messages for other windows or of other kinds change nothing |
| FanOut.DeviceThenStates | src/main.cpp:105-114 | that sequence is the device, then exactly one state per accepted message |
| FanOut.StateSentFor | src/WintabTablet.cpp:273-276 | the state sent for a message sums up the history to that message, and so does its V1 form |
| Delivery.PresentIff | src/V2Server.cpp:336-342 | in every schedule a SetState call finds a stored device exactly when a SetDevice call came before it |
| Delivery.StateBeforeDevice | src/WintabTablet.cpp:135-245 | a message dispatched before the constructor has set the device would find none |
| Delivery.DevicePresent | src/V2Server.cpp:336-342 | in every schedule whose window calls follow the tablet's log, the stored device is present and complete whenever a SetState call is under way |
| Delivery.V2DevicePresent | src/V2Server.cpp:339 | so reading the tablet ID never touches an empty optional, and reads the device's ID |
| Delivery.V1DevicePresent | src/V1Server.cpp:174-175 | likewise V1 reads the device's vendor and product ID |
| Delivery.StatesInOrder | src/WintabTablet.cpp:273-276 | the State frames of all sessions, in order, are a selection, in order, of the states after each accepted driver message |
| Delivery.V2EndToEnd | src/V2Server.cpp:336-342 | after every run of driver messages the V2 State frame, word by word in the order of the struct, says exactly what the history says |
| Delivery.V2StateFrame | src/V2Server.cpp:336-342 | in every schedule every State frame a V2 client gets carries the device's tablet ID and means the history up to some accepted message |
| Delivery.V1StateFrame | src/V1Server.cpp:173-212 | the same for V1, with the device's vendor and product ID |

## Left out

- SessionProofs.PingNumbering: the 64-bit counter does not wrap in the model.
- SplitCopy.SplitCopySafeIff: speaks of runs with one SetDevice call, which is what the program makes.
- The tablet ID in V2 Ping frames is constant.
- Devices whose header was altered after construction: `V2Message` has the type and size that the `DeviceInfo` constructor sets.
- Order of the stores inside a struct copy other than declaration order.
- Reuse of a closed handle's value by a later session.
- `Stop`, stop tokens and thread joining: they depend on when blocking calls return.
- Discovery files, socket paths and the default-server file: filesystem work.
- `utf8.cpp`: the wide name is an arbitrary sequence of units.
- DLL loading, injection and API hooking, and the WinTab calls themselves.
- Console output, window creation and argument parsing.
