# A verified model of tstlan

tstlan lets a laboratory watch and control its instruments. A device is an
ordered list of typed variables; the list alone decides where each variable lives
in the device's byte buffer. The backend reads and writes variables through that
buffer, a simulator on the other side of it produces sensor values, and a test
device serves the same buffer over a line protocol. The web client keeps
histories, joins them into charts and edits device configs, which the backend
stores and shares between users.

This project models that behaviour in Dafny and proves what it promises. To
verify it: `dafny verify dfyconfig.toml`.

## How the model is built

- `NetVars`, `Bits`, `LittleEndian`: types, values, their checks, and the integer
  codec. `Buffers`: the growing zero-extended buffers, as the class that holds
  them and as functions on memory. `Layout`: the two address loops against one
  reference definition, a cursor over a row of bits. `Wrappers`, `Sequences`,
  `Division`: notions and facts that several modules share.
- `Registers`: a device's variables as registers of a buffer. This is where
  layout, bit frames and codec meet: a buffer behaves as a list of values.
  `Accessors`, `Service`: the objects above it. An accessor is found by name, so of
  several variables of one name the last one's register is meant (`Accessors.Slot`).
  `DeviceService.Shown()` is the value of every variable of every device, and each
  method's contract says what becomes of it.
- `Signals`: the signals that are plain arithmetic. `Simulation`: a tick over plain
  values, and what it guarantees. `Engine`: the loops over variable objects and
  buffers, proved to be that tick.
- `Retry`, `Protocol`, `Client`, `Server`: requests in hexadecimal, the
  reconnecting client with its one retry, and the device that serialises requests
  and ticks.
- `History`, `SeedHistory`, `ChartRows`, `Brush`, `TimeGrid`: the time series from
  the sampler to the chart.
- `ConfigForm`, `ConfigStore`: the form's printer and parser; configs, shares and
  the listing query.

Binary floating point is a parameter, `FloatCodec`: doubles are bit patterns, and
converting an integer to double or narrowing a double may overflow. Every theorem
holds for every such codec; the one that needs exact conversion up to 2^53, and the
one about the number 0.1, say so.
A Python exception is an `Err`, a `None` or a false `ok`. Where the code raises
half-way through a tick, the model stops there too.

Several methods begin with `hide`, which keeps definitions a proof does not need
away from the verifier.

## Findings

- Seeding a chart with server history and appending a live point give the same
  chart in either order exactly when there already are live points, when the limit
  is one point, or when the new point is later than all of the history
  (`SeedHistory.SeedAndAppendAllCommute`, with an example in
  `SeedHistory.SameTimeSeam`). The comment at web/tstlan-web/lib/history.ts:5-7
  calls the seam exact with no such condition.
- The number that an accepted write returns is not always the one the next read
  shows: where variables have names of their own it is if and only if the variable is
  not a 32-bit float or the number is one that 32 bits hold (`NetVars.WrittenIsShown`, `Service.ReturnedIsShown`). Whatever
  the conversions are, there are doubles that 32 bits do not hold
  (`NetVars.SomeDoubleIsNotSingle`); under IEEE 754 a write of 0.1 returns 0.1 and is
  shown as 0.10000000149011612 (`NetVars.TenthIsShownRounded`).
- The chart joins lines into rows keyed by variable name, next to the row's own time
  under the key "t". A variable called "t" overwrites the times of all lines of its
  chart (`ChartRows.TimeIsOverwritten`). The join, which the comment at
  web/tstlan-web/components/time-series-chart.tsx:363-364 calls exact, is so for lines
  of increasing times if and only if none is called "t", but for a clock that has a
  sample at every time
  (`ChartRows.JoinIsExact`).
- The form submits nothing while it complains, and what it submits opens again without
  a complaint (`ConfigForm.SubmittedReopensClean`). Without that guard a Modbus counter
  that is not a number would become 0: `draftToPayload` replaces it
  (`ConfigForm.CounterComplaintIsLost`).
- The fallback `or access` at tstlan/configs/service.py:257 is never needed
  (`ConfigStore.UpdateKeepsOwnAccess`), nor does the check after the listing query
  ever drop a row (`ConfigStore.QueryAgreesWithAccess`).

## Model

| member | source | states |
|---|---|---|
| NetVars.FitIsBest | tstlan/devices/models.py:56-60 | a fitted signal value is in range, no in-range integer is strictly closer, and of two equally close ones it is the even one |
| NetVars.BestFitIsUnique | tstlan/devices/models.py:56-60 | that description leaves one integer only |
| NetVars.AcceptedExactly | tstlan/devices/models.py:41-53 | an integer type accepts exactly the integers in its range, a float type exactly the numbers that convert to float, none a bool; the error otherwise |
| NetVars.StoredExactly | tstlan/devices/unidriver/netvar.py:46-65 | what a register of each type shows for any value, and exactly which values do not pack |
| NetVars.AcceptedIsStored | tstlan/devices/models.py:41-53 | a number that is accepted is the one an integer or 64-bit float register then shows |
| NetVars.WrittenIsShown | tstlan/devices/models.py:41-53 | the number a write accepts is shown unchanged if and only if the type is not the 32-bit float or 32 bits hold the number |
| NetVars.SomeDoubleIsNotSingle | tstlan/devices/unidriver/netvar.py:9-20 | whatever the conversions, some double is not one that 32 bits hold |
| NetVars.TenthIsShownRounded | tstlan/devices/models.py:41-53 | one such double is 0.1, which is accepted as 0.1 and shown as 0.10000000149011612 |
| LittleEndian.PackUnpack | tstlan/devices/unidriver/netvar.py:9-20 | every integer in range is recovered from its packed bytes |
| LittleEndian.UnpackPack | tstlan/devices/unidriver/netvar.py:9-20 | every byte string of the type's size unpacks to an integer in range and is recovered from it |
| LittleEndian.SignIsTopBit | tstlan/devices/unidriver/netvar.py:9-20 | bytes unpack to a negative number exactly for a signed type with the top bit of the last byte set |
| LittleEndian.PackedDigit | tstlan/devices/unidriver/netvar.py:9-20 | byte k of a packed integer is digit k, the lowest first, of its two's complement in base 256 |
| Bits.PutBitTestBit | tstlan/devices/unidriver/io.py:49-57 | setting or clearing a bit of a byte changes that bit and no other |
| Bits.ByteValue | tstlan/devices/unidriver/io.py:45-57 | bit k of a byte counts 2^k |
| Buffers.AccessOverlays | tstlan/devices/unidriver/io.py:31-57 | a call on a buffer overlays exactly the bits it writes, keeps all others, and lengthens the buffer at most to its end |
| Buffers.InMemoryUnidriverIO.Ensure | tstlan/devices/unidriver/io.py:31-35 | the buffer of the handle is there and long enough, with zeros at its end; no other buffer changes |
| Buffers.InMemoryUnidriverIO.ReadBytes | tstlan/devices/unidriver/io.py:37-39 | answers the zero-extended bytes and leaves the memory of the read access |
| Buffers.InMemoryUnidriverIO.WriteBytes | tstlan/devices/unidriver/io.py:41-43 | leaves the memory of the write access |
| Buffers.InMemoryUnidriverIO.ReadBit | tstlan/devices/unidriver/io.py:45-47 | answers the zero-extended bit, false for a bit index over 7, and leaves the memory of the read access |
| Buffers.InMemoryUnidriverIO.WriteBit | tstlan/devices/unidriver/io.py:49-57 | leaves the memory of the bit write; fails exactly where a bit over 7 is set, after growing the buffer |
| Layout.VariableOffsets | tstlan/configs/schemas.py:67-87 | the loop computes the addresses of the bit-cursor definition, and its assert never fails |
| Layout.VariableOffsetsOfForm | web/tstlan-web/lib/configs.ts:137-162 | the client's loop computes the same addresses |
| Layout.OffsetsFitTypes | tstlan/configs/schemas.py:67-87 | a bit index is present exactly for a bit variable and is at most 7 |
| Layout.OffsetsDisjoint | tstlan/configs/schemas.py:67-87 | no two variables own a common bit, and later variables have higher addresses |
| Layout.EveryByteUsed | tstlan/configs/schemas.py:67-87 | every byte below the end of the layout is owned, at least in part, by some variable |
| Layout.WithinExtent | tstlan/configs/schemas.py:67-87 | no variable owns a byte beyond that end |
| Layout.ExtentIsUsed | tstlan/configs/schemas.py:67-87 | and some variable owns each byte before it |
| Layout.AppendKeepsOffsets | tstlan/configs/schemas.py:67-87 | appending variables moves no earlier one |
| Layout.FirstAndWords | tstlan/configs/schemas.py:67-87 | the first variable is at byte 0 and a variable that is not a bit takes exactly its size |
| Layout.BitRun | tstlan/configs/schemas.py:67-87 | bit j of a maximal run of k bits is bit j mod 8 of byte j div 8 of the run, which takes ceil(k/8) bytes |
| Registers.UnpackPacked | tstlan/devices/unidriver/netvar.py:52-65 | packing fails exactly where no value is stored, and unpacking what was packed gives the stored value |
| Registers.PackedBytes | tstlan/devices/unidriver/netvar.py:57-65 | every byte of a packed value: two's complement of integers, bit patterns of floats, lowest byte first |
| Registers.UnpackedValue | tstlan/devices/unidriver/netvar.py:46-55 | what unpacking makes of the bytes of any number |
| Registers.LoadOwnBits | tstlan/devices/unidriver/netvar.py:46-55 | what a variable shows depends on its own bits only |
| Registers.SetCoversOwned | tstlan/devices/unidriver/netvar.py:57-65 | a set writes exactly the bits of its variable |
| Registers.SetWritesBytes | tstlan/devices/unidriver/netvar.py:57-65 | after a set the buffer holds the packed bytes at the variable's address, or its bit is whether the value is other than zero |
| Registers.SetOneRegister | tstlan/devices/unidriver/netvar.py:57-65 | setting a variable makes it show the stored value and changes no other variable of the device, even in the same byte |
| Registers.ReadKeepsRegisters | tstlan/devices/unidriver/io.py:37-47 | reads grow the buffer but change no variable |
| Registers.RunShowsLastSet | tstlan/devices/unidriver/netvar.py:46-65 | after any run of gets and sets on any handles each variable shows the last value accepted for it, or what it showed before |
| Registers.LastSetIsLast | tstlan/devices/unidriver/netvar.py:57-65 | the last value accepted is that of the last set of the variable that packs, the initial one if there is none |
| Registers.FreshRunShowsLastSet | tstlan/devices/unidriver/netvar.py:46-65 | on a fresh memory, the last value accepted or zero |
| Accessors.NetVarAccessor.Get | tstlan/devices/unidriver/netvar.py:46-55 | returns the register at its address |
| Accessors.NetVarAccessor.Set | tstlan/devices/unidriver/netvar.py:57-65 | writes the variable's bits, or fails with nothing written exactly if the value cannot be packed |
| Accessors.BuildScheme | tstlan/devices/unidriver/netvar.py:68-78 | one accessor per variable, in order, at the address of the layout |
| Accessors.SchemeByName | tstlan/devices/runtime.py:25-25 | the dict has exactly the variables' names, each with the accessor of the last variable of that name |
| Accessors.PublishValues | tstlan/devices/runtime.py:15-20 | succeeds exactly if every initial value fits the register its name leads to; then each such register shows its own variable's value, and registers no name leads to keep theirs; no other handle changes |
| Accessors.AttachDevice | tstlan/devices/runtime.py:23-26 | wires every variable, repeated names included, without touching the memory |
| Accessors.BindDevice | tstlan/devices/runtime.py:29-33 | wires every variable and publishes the initial values |
| Service.DeviceService.constructor | tstlan/devices/service.py:28-29 | runtimes are kept by id, the last one of each id, in the order the ids came first |
| Service.KeyOrderIsOfFirsts | tstlan/devices/service.py:28-29 | an id stands where it came first |
| Service.DeviceService.FromDevices | tstlan/devices/service.py:34-44 | handles 1, 2, ...; every variable of every device kept shows the initial value of the last variable of its name; fails exactly if one does not fit |
| Service.DeviceService.ListDevices | tstlan/devices/service.py:46-49 | the devices, in order |
| Service.DeviceService.Variable | tstlan/devices/service.py:129-140 | the first variable of that name, if any |
| Service.DeviceService.Snapshot | tstlan/devices/service.py:118-120 | a fresh variable with the shown value; nothing changes |
| Service.ShownNamesAgree | tstlan/devices/service.py:118-120 | variables of one name show one value, which is what a sample asks of what is shown |
| Service.DeviceService.ReadValue | tstlan/devices/service.py:70-91 | a variable of that name, type and mode with the shown value, or the error of an unknown device, an unknown variable or a write-only one; no variable of any device changes |
| Service.DeviceService.ReadValues | tstlan/devices/service.py:54-68 | exactly the variables that are not write-only, in order, with the values shown; nothing changes |
| Service.DeviceService.WriteValue | tstlan/devices/service.py:93-116 | exactly when a write is accepted, what it returns and what its name then shows; the errors of an unknown device or variable, a read-only one, a wrong kind, a number out of range or one that does not pack; nothing else changes |
| Service.WriteIsAnswered | tstlan/devices/service.py:93-116 | for a name that occurs once: a read-only variable refuses; an integer one takes exactly the integers in range and shows them; a float one exactly the numbers that convert, and narrow if it has 32 bits; nothing else changes |
| Service.WriteByName | tstlan/devices/service.py:93-116 | for a repeated name: the first variable accepts, the last one's register takes the number, all of them show it |
| Service.ShowsLastAccepted | tstlan/devices/service.py:93-116 | over any run of writes a variable shows the last write accepted for its name |
| Service.ShowsInitial | tstlan/devices/service.py:93-116 | and its initial value if none was accepted |
| Service.ReturnedIsShown | tstlan/devices/service.py:93-116 | the number a write returns is the one shown after it exactly if its register shows the number unchanged, which but for repeated names is: unless it is a 32-bit float and 32 bits do not hold the number |
| Signals.SignalsRepeat | tstlan/devices/simulation/signals.py:49-69 | over the reals, sawtooth and square repeat with their period at any time and stay between their bounds |
| Signals.SignalsAt | tstlan/devices/simulation/signals.py:49-69 | their value at any fraction of any period: the sawtooth has risen by that part of its range, the square is high before its duty and low after |
| Signals.RandomWalk.Sample | tstlan/devices/simulation/signals.py:104-107 | returns and keeps the value after all moves drawn so far |
| Signals.WalkStaysInCorridor | tstlan/devices/simulation/signals.py:92-107 | every sample lies in the corridor if and only if its bounds are in order, and inside it the walk moves a step at most |
| Signals.WalkMoves | tstlan/devices/simulation/signals.py:104-107 | a move within the corridor is made in full, one that leads out of it stops at the bound |
| Signals.BoundsSurviveFitting | tstlan/devices/models.py:56-60 | a signal between two whole numbers a register can hold stays between them when shown |
| Simulation.TickKeeps | tstlan/devices/simulation/engine.py:46-59 | a tick, even one that raises, changes no register of a variable without a signal or of a disabled device |
| Simulation.TickKeepsValue | tstlan/devices/simulation/engine.py:46-59 | a tick assigns no variable object of a disabled device, nor a read-only one without a signal |
| Simulation.TickSucceeds | tstlan/devices/simulation/engine.py:46-59 | a tick goes through if and only if every sample at its turn converts and fits the register it goes to |
| Simulation.FittedFits | tstlan/devices/models.py:56-60 | a fitted number fits a register of its type, unless that has 32 bits and the number overflows them |
| Simulation.RaiseLeaves | tstlan/devices/simulation/engine.py:54-59 | where a signal raises nothing is assigned, where publishing raises the variable is and its register is not |
| Simulation.SampledIsShown | tstlan/devices/simulation/engine.py:54-59 | after a tick a variable with any signal shows the number sampled at its turn, an integer one its best fit |
| Simulation.GeneratedIsShown | tstlan/devices/simulation/engine.py:54-59 | a generated signal shows the number generated for its own variable |
| Simulation.FollowIsShown | tstlan/devices/simulation/signals.py:110-117 | a following one shows the value its target has at its turn, converted to float |
| Simulation.FollowFinds | tstlan/devices/simulation/signals.py:110-117 | what a follower finds in a variable of its device: the value just assigned if that comes first, a control's register as it was before the tick, or else the value it had |
| Simulation.FollowShowsControl | tstlan/devices/simulation/signals.py:110-117 | following a control without a signal shows the control's register as it was last written |
| Simulation.FollowIsExact | tstlan/devices/simulation/signals.py:116-117 | exactly, for integers up to 2^53 that fit |
| Simulation.ControlsBelongToClients | devsim/server.py:28-66 | however client sets and ticks interleave, a variable without a signal shows the last value a client set, or its initial one |
| Simulation.LastClientSetIsLast | devsim/server.py:28-36 | the last value a client set is that of its last set that packs, the initial one if there is none |
| Engine.SimulationEngine.Create | tstlan/devices/simulation/engine.py:21-44 | succeeds exactly for distinct handles and initial values that fit, and then the registers hold what publishing leaves |
| Engine.SimulationEngine.ReadControls | tstlan/devices/simulation/engine.py:51-53 | the reading loop takes every control's value from its register and changes no register |
| Engine.SimulationEngine.PublishSignals | tstlan/devices/simulation/engine.py:54-59 | the publishing loop is that of the value-level tick, on the variable objects and on the registers |
| Engine.SimulationEngine.Tick | tstlan/devices/simulation/engine.py:46-59 | a tick of the objects and buffers is the value-level tick; buffers of disabled devices and of other handles are untouched |
| Retry.RetryAbsorbed | tstlan/devices/net/client.py:39-45 | a request before and after any other requests leaves exactly the memory that it leaves after them alone |
| Retry.RunsInOrder | devsim/server.py:28-36 | requests run one after the other, each on the memory the last one left |
| Retry.TwiceIsOnce | tstlan/devices/net/client.py:39-45 | repeated at once, a request changes nothing more and is answered the same |
| Protocol.HexRoundTrip | devsim/protocol.py:19-24 | bytes of any length are recovered from their hexadecimal digits |
| Protocol.HexDigits | devsim/protocol.py:19-24 | each byte is two lower-case digits, the high half first |
| Protocol.HexValueExactly | devsim/protocol.py:22-22 | digits are read in either case, and nothing else is one |
| Protocol.HexPrefix | devsim/protocol.py:22-22 | digits are read byte by byte, whatever follows |
| Protocol.HexSpace | devsim/protocol.py:22-22 | white space between bytes is skipped |
| Protocol.Apply | devsim/protocol.py:15-30 | each kind of message does to the buffer it names what it says and is answered with it; an unknown operation or malformed data changes nothing, and setting a bit over 7 raises after growing the buffer |
| Client.WireIsFaithful | tstlan/devices/net/client.py:78-107 | the device understands exactly the call that was made, and the client exactly the answer, so a remote operation is the direct one; the one call that raises at the device is the setting of a bit over 7 |
| Client.SocketUnidriverIO.Operation | tstlan/devices/net/client.py:69-107 | answers only on a connection that never failed and where the device does not raise; takes effect once unless the request was lost |
| Client.LazySocketUnidriverIO.Connect | tstlan/devices/net/client.py:47-50 | keeps an existing connection, else opens a fresh one unless refused |
| Client.LazySocketUnidriverIO.Attempt | tstlan/devices/net/client.py:39-45 | one attempt: an answer means one execution, a failure one or none |
| Client.LazySocketUnidriverIO.Call | tstlan/devices/net/client.py:39-58 | a call that returns acts as exactly one direct execution; it raises only if the retry fails too, and then acted as one execution or none |
| Server.DeviceServer.Serve | devsim/server.py:49-57 | starts exactly if every initial value fits and the first tick does not raise; the state is then that of the initial values after one tick |
| Server.StartsWithInitial | devsim/server.py:49-57 | before the first request every variable without a signal shows its initial value |
| Server.DeviceServer.Handle | devsim/server.py:28-36 | a request is one step on the buffer |
| Server.DeviceServer.HandleSet | devsim/server.py:28-36 | a set that arrives over the wire is a client set of the one variable |
| Server.DeviceServer.HandleGet | devsim/server.py:28-36 | a get over the wire returns the register and changes nothing |
| Server.DeviceServer.Drive | devsim/server.py:60-66 | a round of the tick loop is a tick |
| History.HistoryIsLastTaken | tstlan/devices/history.py:33-46 | over any rounds with any failing reads, a device's history is the tail of its own successful samples, in order, as long as they are but at most 900 |
| History.NewestIsLast | tstlan/devices/history.py:40-46 | a new sample is the last of its device's history, a device not read keeps its history |
| History.RoundHolds | tstlan/devices/history.py:40-46 | a pass samples exactly the devices that can be reached |
| History.PassIsRound | tstlan/devices/history.py:40-46 | one pass over the devices gives each reachable device one new sample and the others none |
| History.SampleHoldsReadable | tstlan/devices/history.py:42-42 | a sample holds exactly the variables that are not write-only, each with the value shown |
| History.Recorder.Append | tstlan/devices/history.py:45-46 | the sample is added, the oldest dropped beyond 900 |
| History.Recorder.RecordSnapshot | tstlan/devices/history.py:33-46 | records the round of the reachable devices with the values then shown, and changes no value |
| SeedHistory.SeedAll | web/tstlan-web/lib/history.ts:8-28 | every series in the history becomes its older samples before its live ones, cut to the limit; the others stay |
| SeedHistory.SeedOne | web/tstlan-web/lib/history.ts:18-27 | a series in the history becomes the samples before its first live point, then all live points, and of these the last of the limit; one that is not stays |
| SeedHistory.OlderHolds | web/tstlan-web/lib/history.ts:22-24 | of samples in any order exactly those before the first live point are taken |
| SeedHistory.CollectedExactly | web/tstlan-web/lib/history.ts:13-17 | the samples of a variable are the time and value of each point that names it |
| SeedHistory.CollectedOnce | web/tstlan-web/lib/history.ts:13-17 | one for each such point |
| SeedHistory.SeedingIsOrdered | web/tstlan-web/lib/history.ts:20-26 | a seeded series is in time order, within the limit, and ends with all live points |
| SeedHistory.SeedAllTwice | web/tstlan-web/lib/history.ts:8-28 | seeding with the same history again changes nothing |
| SeedHistory.AppendAll | web/tstlan-web/components/device-monitor.tsx:151-159 | the live append of a snapshot |
| SeedHistory.AppendOne | web/tstlan-web/components/device-monitor.tsx:151-159 | a snapshot adds exactly one point to each variable it names and leaves the others |
| SeedHistory.SnapshotAppends | web/tstlan-web/components/device-monitor.tsx:151-159 | the point has the time of the snapshot and the variable's value in it, and the series keeps the last of the limit |
| SeedHistory.SeedAndAppendCommute | web/tstlan-web/lib/history.ts:20-26 | for one series, seeding and appending commute if and only if there are live points, the limit is one, or the new point is later than all seeded |
| SeedHistory.SameTimeSeam | web/tstlan-web/lib/history.ts:20-26 | a first live point at the time of the last history point gives two points in one order and one in the other |
| SeedHistory.SeedAndAppendAllCommute | web/tstlan-web/components/device-monitor.tsx:151-159 | for all series together, if and only if it holds of each variable in both |
| ChartRows.BuildRows | web/tstlan-web/components/time-series-chart.tsx:365-378 | the loops build the row objects of the joined table, stably sorted by what they hold as their time |
| ChartRows.ColumnValues | web/tstlan-web/components/time-series-chart.tsx:380-387 | the values of a line's column, in row order |
| ChartRows.RowsAreTimes | web/tstlan-web/components/time-series-chart.tsx:365-378 | unless a line overwrites times, rows strictly increase in time, and there is one at a time exactly if some line has a sample there |
| ChartRows.OneRowPerTime | web/tstlan-web/components/time-series-chart.tsx:365-378 | for any lines there is one row for each time of a sample, in the order of what the rows hold as their time, and as they came where that is equal |
| ChartRows.LastSampleShows | web/tstlan-web/components/time-series-chart.tsx:367-376 | of several samples of a line at one time the last one is in the row |
| ChartRows.JoinIsLossless | web/tstlan-web/components/time-series-chart.tsx:365-378 | each line with increasing times is recovered sample by sample from its column, if no line called "t" gives a value other than its time |
| ChartRows.JoinIsExact | web/tstlan-web/components/time-series-chart.tsx:363-387 | lines of increasing times are all recovered if and only if none is called "t", but for a clock with a sample at every time |
| ChartRows.TimeIsOverwritten | web/tstlan-web/components/time-series-chart.tsx:369-375 | a variable called "t" of value 5 at time 1 moves the sample of the line beside it from time 1 to time 5 |
| Brush.FirstIndexAtOrAfter | web/tstlan-web/lib/chart-brush.ts:24-29 | the first index at or after a time, or the last index if there is none |
| Brush.LastIndexAtOrBefore | web/tstlan-web/lib/chart-brush.ts:31-36 | the last index at or before a time, or 0 if there is none |
| Brush.PartialSelections | web/tstlan-web/lib/chart-brush.ts:10-21 | a selection becomes a time range exactly if it is not the whole chart |
| Brush.RangesExactly | web/tstlan-web/lib/chart-brush.ts:10-21 | exactly which indices, missing or outside the chart, give a range, and which range |
| Brush.SelectionFollowsPoints | web/tstlan-web/lib/chart-brush.ts:10-36 | index to time and back is the identity, and follows the points while newer ones are appended and the k oldest dropped |
| Brush.VisibleIsSelection | web/tstlan-web/components/time-series-chart.tsx:103-109 | the rows shown are exactly the selected slice that is left, or all rows once none is, or while the whole chart is selected |
| TimeGrid.ChooseStep | web/tstlan-web/lib/chart-grid.ts:22-25 | the first rung at least as wide as asked for, else the last |
| TimeGrid.NiceTimeTicks | web/tstlan-web/lib/chart-grid.ts:15-33 | the ticks are exactly the multiples of the step, shifted by the time zone, from min to max, in order, and floor(span/step) of them or one more |
| TimeGrid.LadderRatio | web/tstlan-web/lib/chart-grid.ts:4-7 | each rung is at most 2.5 times the one before |
| TimeGrid.NotTooMany | web/tstlan-web/lib/chart-grid.ts:20-31 | at most target + 1 ticks for a span of at most target days |
| TimeGrid.NotTooFew | web/tstlan-web/lib/chart-grid.ts:20-31 | at least floor(2 target / 5) ticks for a span of at least target seconds |
| ConfigForm.TrimTwice | web/tstlan-web/lib/configs.ts:221-225 | trimming again changes nothing |
| ConfigForm.TrimIsInner | web/tstlan-web/lib/configs.ts:221-225 | trimming takes away the spaces at both ends and nothing else |
| ConfigForm.PrintParse | web/tstlan-web/lib/configs.ts:221-232 | every printed integer parses back to itself |
| ConfigForm.DigitPlace | web/tstlan-web/lib/configs.ts:221-225 | digit k from the right counts 10^k |
| ConfigForm.NoLeadingZero | web/tstlan-web/lib/configs.ts:348-374 | numbers are printed without leading zeros |
| ConfigForm.ReadExactly | web/tstlan-web/lib/configs.ts:221-225 | read is exactly a row of digits, after a minus or none, between spaces |
| ConfigForm.ValidateVariables | web/tstlan-web/lib/configs.ts:295-308 | complains exactly about empty names and names an earlier variable has |
| ConfigForm.ValidateConfigForm | web/tstlan-web/lib/configs.ts:234-293 | every complaint of the form, and no other |
| ConfigForm.ComplaintsExactly | web/tstlan-web/lib/configs.ts:234-270 | field by field, exactly when there is a complaint about it |
| ConfigForm.CounterComplaintsExactly | web/tstlan-web/lib/configs.ts:272-282 | each Modbus counter is complained of exactly if it is no count |
| ConfigForm.VariableComplaintsExactly | web/tstlan-web/lib/configs.ts:295-308 | each variable exactly if it has no name or that of an earlier one |
| ConfigForm.Submit | web/tstlan-web/components/config-form.tsx:71-80 | hands on the config of the draft exactly if the form has no complaint |
| ConfigForm.PayloadSurvives | web/tstlan-web/lib/configs.ts:314-374 | the config of a draft, opened again, gives the same payload, name, type and visibility |
| ConfigForm.ReopenedIsTyped | web/tstlan-web/lib/configs.ts:314-374 | opened again, a config shows what was typed, trimmed, in the fields its transport uses |
| ConfigForm.CountersReopen | web/tstlan-web/lib/configs.ts:330-337 | and each Modbus counter in its own field |
| ConfigForm.ErrorsSurvive | web/tstlan-web/lib/configs.ts:234-374 | of any draft, submitted or not: the form complains about its config opened again as about the draft, except of Modbus counters |
| ConfigForm.CounterComplaintIsLost | web/tstlan-web/lib/configs.ts:330-337 | `draftToPayload` turns a Modbus counter that is not a number into 0, of which the form would not complain; the form does not submit such a draft |
| ConfigForm.ValidSurvives | web/tstlan-web/lib/configs.ts:234-374 | of any draft: a valid one stays valid, and an invalid one would become valid exactly if only Modbus counters were wrong |
| ConfigForm.SubmittedReopensClean | web/tstlan-web/components/config-form.tsx:71-80 | what was submitted opens again without a complaint and would be submitted the same |
| ConfigForm.ComplaintsAreDefects | web/tstlan-web/lib/configs.ts:234-346 | apart from the config's own name and type and Modbus counters, the form complains exactly about drafts whose payload is not usable |
| ConfigForm.SubmittedIsUsable | web/tstlan-web/components/config-form.tsx:71-80 | exactly the drafts with a name and type within limits, a usable payload and readable Modbus counters are submitted |
| ConfigForm.SubmittedIsTyped | web/tstlan-web/lib/configs.ts:314-346 | what is submitted is what was typed, field by field: texts trimmed, numbers read, of the connection only what the transport needs |
| ConfigStore.ReachableStoresOk | tstlan/configs/service.py:171-385 | after any operations: one share per grantee, none for the owner, grantees exist, and a non-public config is shared exactly if it has shares |
| ConfigStore.StepsInOrder | tstlan/configs/service.py:171-385 | operations are carried out one after the other |
| ConfigStore.AccessExactly | tstlan/configs/service.py:40-58 | exactly an admin and the creator own a config; others have what their share says, or may read what is public |
| ConfigStore.CreateRefusedExactly | tstlan/configs/service.py:65-82 | creating is refused exactly to a mere user who asks for a public config |
| ConfigStore.RefusedExactly | tstlan/configs/service.py:150-385 | exactly when, and with which error, any other operation is refused; to owners only publishing as a mere user and sharing with nobody or the owner |
| ConfigStore.CreateStores | tstlan/configs/service.py:171-193 | what creating adds, field by field |
| ConfigStore.UpdateStores | tstlan/configs/service.py:233-257 | what an update sets and what it leaves, field by field |
| ConfigStore.DeleteStores | tstlan/configs/service.py:260-281 | deleting removes the config and nothing else |
| ConfigStore.SharingStores | tstlan/configs/service.py:324-385 | sharing gives the one grantee the one permission, unsharing takes it away; the rest of the config and all other configs stay |
| ConfigStore.CreatorKeepsControl | tstlan/configs/service.py:40-43 | whatever happens in between, the creator of a config that is still there owns it: is refused no update of it, publishing aside, nor deleting it, nor sharing it with another user |
| ConfigStore.OnlyPublishersPublish | tstlan/configs/service.py:61-82 | only a dev or an admin makes a config public |
| ConfigStore.ChangesAreAuthorized | tstlan/configs/service.py:196-385 | an operation changes one config at most, anything of it only with owner access, and the payload alone with write access |
| ConfigStore.SharingGivesAccess | tstlan/configs/service.py:284-385 | sharing gives the grantee exactly the access asked for, unsharing takes it back, and nobody else's access changes |
| ConfigStore.UpdateKeepsOwnAccess | tstlan/configs/service.py:257-257 | an update never changes the access of the user who makes it |
| ConfigStore.QueryAgreesWithAccess | tstlan/configs/service.py:109-147 | the outer join, filter and distinct return exactly the configs the user has access to, once each, in order |
| ConfigStore.AccessibleInOrder | tstlan/configs/service.py:134-136 | in the order asked for |
| ConfigStore.ConfigService.GetConfig | tstlan/configs/service.py:150-168 | the config with the user's access, or the error |
| ConfigStore.ConfigService.CreateConfig | tstlan/configs/service.py:171-193 | creates a private or public config of the user and returns it with its id, or leaves the store unchanged |
| ConfigStore.ConfigService.UpdateConfig | tstlan/configs/service.py:196-257 | the updated config with the user's access, or the error and an unchanged store |
| ConfigStore.ConfigService.DeleteConfig | tstlan/configs/service.py:260-281 | the store without the config, or the error and an unchanged store |
| ConfigStore.ConfigService.ShareConfig | tstlan/configs/service.py:284-344 | the config with the share added or its permission replaced, stored and returned, or the error and an unchanged store |
| ConfigStore.ConfigService.UnshareConfig | tstlan/configs/service.py:347-385 | the config without the share, stored and returned, or the error and an unchanged store |
| ConfigStore.ConfigService.ListConfigs | tstlan/configs/service.py:109-147 | exactly the configs the user may access, with that access, in order |

## Left out

- Binary floating point itself: the signals of `Signals` are over real numbers, and
  in a tick a generated signal is any number, new each time. Sine, noise and sums
  are not modelled, nor infinities and NaN, on which rounding raises.
- Services over a remote memory interface: accessors are modelled over the
  in-memory one, and `Client.WireIsFaithful` says that remote calls equal direct ones.
- A request that is executed after its retry, because it was delayed on an abandoned
  connection, and a tick that falls between an attempt and its retry.
- Negative positions in raw requests, which no accessor makes.
- Threads sharing one client or one in-process buffer; only the test device has a lock.
- Sockets, JSON text, HTTP routes, event streams, logging and rendering.
- `DeviceStatus` and connection flags (`is_connected`), which nothing modelled depends on.
- Time stamps, deleting users, and concurrent sessions on the config store.
- Number rounding in JavaScript beyond safe integers; the form's theorems ask for
  safe integers, and minus zero is zero.
- Variable names that JavaScript objects inherit, such as `constructor`, which the
  client's records would treat specially; records are plain maps.
- Signals.SignalsRepeat: is about real numbers; a floating-point remainder can be
  rounded up to the whole period, and then the sawtooth reaches its upper bound.
- ConfigStore.ConfigService.ListConfigs: takes the ids in the order of their update
  times, which are not modelled, and returns ids for configs.
- Simulation.FollowFinds: asks that a device does not list one variable object twice.
- Simulation.FollowShowsControl: asks the same.
- TimeGrid.NiceTimeTicks: works on integer milliseconds and compares rungs by whole
  numbers, where the client divides floating-point numbers.
