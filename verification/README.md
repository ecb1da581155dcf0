# VILLASfpga: a verified model

VILLASfpga drives streaming hardware on an FPGA card: crossbar switches that
carry streams between IP cores, a scatter-gather DMA engine that moves them to
and from memory, interrupt and I2C controllers, and the bookkeeping around
them. This project models the algorithms that keep state over many calls and
proves what they guarantee over all runs.

`dafny verify dfyconfig.toml` checks everything.

| module | models |
|---|---|
| `Crossbar` | the crossbar switch: port table and double-buffered mux registers |
| `Routing` | `Node::connect`, hop by hop with planning anew at each hop |
| `StreamGraphs` | how the configuration becomes the graph of ports; loopbacks |
| `BdRing`, `ScatterGather` | the descriptor ring and the DMA protocol over it |
| `StdoutReader` | the double-buffered reader on top of the DMA |
| `CliText` | printing and splitting argument lists |
| `CliWords`, `CliParser`, `CliMeaning` | option words, the command-line parser, and what it does in terms of strings and names |
| `BringUp` | ordering IPs and resolving their interrupts |
| `IommuCard`, `GpuChunks` | memory mapped for the FPGA; chunked GPU memory |
| `Samples`, `SampleOutput` | the sample buffer, and how the reader fills and prints it |
| `Intc`, `I2c`, `VlnvTag` | interrupt controller, I2C retries, IP tags |
| `Text` | options, white space and number parsing shared by the others |

How it is built. Objects that the source updates in place are classes whose
methods follow the source's control flow. Each method equates its outcome and
the new state with a function of the old state, and the properties are proved
of that function, by lemmas over single steps and over whole runs. Hardware and
libraries outside the repository appear as parameters that may behave in any way
their contract allows: a planner, a schedule of interrupts, an offered address,
a stream of messages.

Main results.

* A `connect` that returns true leaves switch registers that carry data from one
  end to the other (`Routing.ConnectDelivers`, `Routing.StreamCard.Establish`).
  Where no link joins an IP to itself, every link ends at a known IP and every
  pair of switch ports can be connected, it returns true exactly when it is called
  on the IP that owns the start and the target is reachable
  (`Routing.ConnectSucceedsIff`). An earlier connection survives a call that
  returns true exactly when the new route diverts neither of its two ports
  (`Routing.ConnectionSurvivesIff`).
* As long as its calls return normally, no run of the DMA driver loses a descriptor
  (`ScatterGather.RunFromInitial`); what a call that throws strands is stranded for
  good (`ScatterGather.StrandedForGood`). Over any run a completion gives up for too many
  partial batches at exactly the 33rd (`ScatterGather.TooManyPartialReads`).
* In every run of the double-buffered reader, whatever the hardware does, the
  hardware queue is known block by block, and the blocks take turns exactly when
  every completion takes back one full batch (`StdoutReader.RunQueue`,
  `StdoutReader.RunTakesTurnsIff`); then no block is written while it is formatted
  and no read fails (`StdoutReader.FullTurnsAreSafe`). What is printed is exactly
  what was received for batches of full messages that fill whole words, and the exact
  condition for any other is `StdoutReader.ExactIff`. Where no text is too long for its
  slot, a round overruns the sample buffer exactly when the words of its batch outnumber
  the slots (`SampleOutput.RoundOverrunsIff`).
* The command-line parser ends on every input, never reaches the errors its
  authors call horrible, accounts for every word in order, and returns normally only
  if every option of every app it entered is satisfied
  (`CliParser.Parser.ParseCommandLine`). A run is a chain of turns, and what each makes of
  its word is told by the strings and names alone (`CliMeaning.EveryTurn`,
  `CliMeaning.OptionWord`, `CliMeaning.PlainWord`, `CliMeaning.SubWord`).
* The pass that configures IPs leaves a record for exactly those a plugin makes, and an
  interrupt is in the record exactly when its controller stands before
  (`BringUp.ConfiguresMade`, `BringUp.RecordAt`).
* Splitting a printed argument list gives the list back exactly when each argument
  survives by itself (`CliText.RoundTripIff`).

What the code does not do. Some promises in comments, messages or names hold only
under a condition. The code is modelled as it is, and the condition is proved exact.

* The scan that orders IPs erases an element and then steps over the next, and erasing
  the last element leads past the end of the list. "First here will be initialized
  first" holds exactly when the IPs are placed well: of the last class that is present an
  even number ends the list, no IP that is not listed precedes one that is skipped (the
  second, fourth, ... of each run of neighbours of that class), and once the others of it
  are taken out, every IP of a class before it is followed by one that is not of its class
  (`BringUp.OrderIsSortedIff`; a list that fails is in `BringUp.NeighboursAreSkipped`).
* Unmapping a block looks up its oldest translation. After map, unmap and map again
  it releases the wrong address (`IommuCard.UnmapAgreesIff`, `IommuCard.RemapLeaks`).
* DMA completions count the length of the head descriptor once per descriptor. With
  batches of one, which is how the driver is built, the count is always right
  (`ScatterGather.SingleReadIsCounted`, `ScatterGather.SingleWriteIsCounted`). With a
  larger coalesce value it is right when all lengths of the batch are equal; when none is
  longer than the head, or none is shorter, it is right only then
  (`ScatterGather.ReadBytes`, `ScatterGather.WriteBytes`; a batch of two that is counted
  wrong is in `ScatterGather.PairIsMiscounted`).
* The message says "no transmit interrupt after 10 tries"; it is issued exactly when nine
  tries bring none and the tenth is neither refused nor stuck. It is untrue exactly when
  in addition a transfer interrupt comes among the ten waits of the tenth try before any
  of them times out (`I2c.NoInterruptIff`, `I2c.UntrueReportIff`; a schedule where that
  happens is in `I2c.TenthTryIsLost`).
* A transfer that returns normally has sent nothing exactly when in each of its tries both
  attempts find the bus busy; it then takes the late interrupt of an earlier transfer for
  its own (`I2c.NothingSentIff`, `I2c.StaleInterrupt`).
* The second allocation attempt finds "a large enough chunk" unless the size is within
  one page of the largest `size_t`; then it keeps buying chunks for as long as the device
  has any (`GpuChunks.OneChunkIsEnough`, `GpuChunks.DivergesIff`).
* A flag takes no words, unless it is given a value with an equals sign: then it takes the
  plain words behind it, too (`CliMeaning.FlagWithValue`).
* A text that is too long for its slot skips the output of its batch but leaves the batch
  in the sample buffer, so a later batch that has room by itself can overrun it
  (`SampleOutput.OverflowsIff`, `SampleOutput.SkippedThenOverrun`).
* The long sample format leaves a gap in its slot, so only the first sample of a buffer
  is printed (`Samples.LongShowsFirst`).
* A connection with `reverse` asks the same IP for the way back, which works exactly
  when both ends belong to it (`Routing.ReverseNeedsOneNode`), and the way back can break
  the way there (`Routing.ReverseDelivers`, `Routing.ReverseBreaks`).
* A path search that is merely loop-free would let two switches hand a request to each
  other forever (`Routing.SimplePathsPingPong`); hence a shortest one is assumed.

## Model

| member | source | states |
|---|---|---|
| `Crossbar.AxiStreamSwitch.Init` | lib/ips/switch.cpp:21-48 | a successful initialisation leaves every master disabled in the table, every register off, and table and registers in agreement; the invariant of later calls then holds exactly if port numbers differ |
| `Crossbar.AxiStreamSwitch.DisableMaster` | lib/ips/switch.cpp:107-119 | one register update together with its table entry keeps table and registers in agreement |
| `Crossbar.AxiStreamSwitch.ReleaseSlave` | lib/ips/switch.cpp:107-119 | the loop disables exactly the masters fed by this slave |
| `Crossbar.AxiStreamSwitch.ConnectInternal` | lib/ips/switch.cpp:75-131 | every way the call ends (refused, already connected, connected, thrown), the table it leaves, and what it does to each register, told by the digits in the port names: the register of the master selects the slave, any other that did is off, the rest stay |
| `Crossbar.WriteAgrees` | lib/ips/switch.cpp:122-126 | a held, written and committed register keeps every other register's agreement, provided port numbers differ |
| `Crossbar.ConnectKeepsMapping` | lib/ips/switch.cpp:101-126 | each entry names a connectable slave and no slave feeds two masters, before and after any call |
| `Crossbar.ReleasedOk` | lib/ips/switch.cpp:107-119 | releasing leaves a good table that no longer mentions the slave |
| `Crossbar.RunKeepsMapping` | lib/ips/switch.cpp:75-131 | one slave, one master at most, after any sequence of calls |
| `Crossbar.CallJoins` | lib/ips/switch.cpp:75-131 | what one call does to a given pair of ports, by the kind of call |
| `Crossbar.TableIsLastWord` | lib/ips/switch.cpp:75-131 | over any sequence of calls the table joins two ports exactly when the most recent call about either of them joined them |
| `Crossbar.RegistersIdentifyTheSlave` | lib/ips/switch.cpp:121-137 | read back from hardware: the register with the number in the master's name selects the number in the slave's name exactly when the table joins the ports, and is off exactly when the table says disabled |
| `Crossbar.OtherRegistersOff` | lib/ips/switch.cpp:121-137 | a register whose number no master has is off |
| `Crossbar.OutcomeIff` | lib/ips/switch.cpp:75-131 | the call returns true exactly when both ports exist, start with S and M and have numbers; false exactly when one does not exist or starts otherwise; it throws when a number is missing |
| `Crossbar.AgreementSwitches` | lib/ips/switch.cpp:107-126 | whatever keeps registers in agreement with the table changes them in this way |
| `Crossbar.SwitchesAtOnce` | lib/ips/switch.cpp:112-124 | between hold and commit nothing reaches the hardware, then everything written does |
| `Crossbar.PortNumberIff` | lib/ips/switch.cpp:133-137 | which number a port name has, by its second and third character, and that the call throws exactly when it has none |
| `Crossbar.TwoDigits` | lib/ips/switch.cpp:133-137 | two digits behind the first letter are the number, whatever follows |
| `Crossbar.AxiStreamSwitch.EnableMaster` | lib/ips/switch.cpp:121-126 | the register and the table entry of the new pair, or the exception |
| `Text.StoiIff` | lib/core.cpp:160-167 | the number read is the one the text spells: blanks, a sign, digits by place value; there is none exactly when an exception is thrown |
| `Routing.ReplanShrinks` | lib/node.cpp:93-97 | planning again from the i-th vertex of a shortest walk finds a walk shorter by exactly i: the measure of the recursion |
| `Routing.RouteIsShortest` | lib/node.cpp:93-135 | however often it is planned anew, the route taken is one shortest walk whose vertices come strictly closer to the target |
| `Routing.ConnectDelivers` | lib/node.cpp:87-136 | a call that returns true leaves tables under which data entering at `from` arrives at `to`; later hops of the call undo no earlier one |
| `Routing.ConnectFrame` | lib/node.cpp:87-136 | successful or not, a call keeps every connection whose two switch ports its route does not use |
| `Routing.ConnectKeepsConfig` | lib/node.cpp:110-115 | all switch tables stay good through a call, however it ends |
| `Routing.ConnectSucceedsIff` | lib/node.cpp:87-136 | with a complete configuration the call returns true exactly when made on the IP that owns `from` and `to` is reachable |
| `Routing.ConnectionSurvivesIff` | lib/ips/switch.cpp:107-126 | an earlier connection survives a successful call exactly when the new route diverts neither of its ports |
| `Routing.RouteSurvives` | lib/node.cpp:87-136 | a working route survives any sequence of calls that stay clear of its switch ports, whether they succeed, fail or throw |
| `Routing.ReverseNeedsOneNode` | include/villas/fpga/node.hpp:102-113 | the reverse flag yields true exactly when both ends belong to the IP that is asked and each is reachable from the other |
| `Routing.ReverseDelivers` | include/villas/fpga/node.hpp:102-113 | when both calls return true, the way back works under the final tables, and the way there does exactly when the way back diverts none of its switch ports |
| `Routing.ReverseBreaks` | include/villas/fpga/node.hpp:102-113 | there is a network where the result is true and the way there is broken |
| `Routing.TablesReachHardware` | lib/ips/switch.cpp:121-126 | a route that the tables carry is carried by the mux registers |
| `Routing.StreamCard.ConnectInternal` | lib/node.cpp:153-160 | virtual dispatch: only a switch connects ports, and only its own table changes |
| `Routing.StreamCard.Connect` | lib/node.cpp:87-136 | the recursive method ends and does to all switches what the specification of a call says |
| `Routing.StreamCard.Establish` | lib/node.cpp:87-136 | a call that returns true leaves mux registers that carry data along a walk from `from` to `to` |
| `Routing.PlannerExists` | lib/node.cpp:93-97 | every network has a path search that meets the contract assumed of `getPath` |
| `Routing.SimplePathsPingPong` | lib/node.cpp:93-135 | with simple instead of shortest paths there is a network where two IPs pass the request back and forth |
| `StreamGraphs.StreamGraph.GetOrCreateStreamVertex` | include/villas/fpga/node.hpp:57-72 | one vertex per IP, port and role: an existing one is returned, else one is added, and no edge changes |
| `StreamGraphs.StreamGraph.AddDefaultEdge` | lib/node.cpp:61-62 | exactly one link is added |
| `StreamGraphs.StreamNode.Parse` | lib/node.cpp:23-71 | accepted exactly when there is no list of ports, or an array all of whose entries are readable; links come from master entries only; ports read before a bad entry stay |
| `StreamGraphs.StreamNode.InitEdges` | lib/ips/switch.cpp:33-45 | every slave of the switch gets an edge to every master, and nothing else is added |
| `StreamGraphs.DeclaredMeaning` | lib/node.cpp:51-63 | a link is declared exactly when some accepted entry with a master role declares it |
| `StreamGraphs.NamesMeaning` | lib/node.cpp:60-65 | an IP knows a port by a name and role exactly when some accepted entry gives it that name and role |
| `StreamGraphs.GraphIsNet` | lib/node.cpp:29-66 | the edges so made are exactly those of the network the routing theorems speak about |
| `StreamGraphs.Build` | lib/core.cpp:228-240 | after all IPs are parsed and all switches initialised, the graph has exactly the edges of the configured network |
| `StreamGraphs.NoSelfLinkIff` | lib/node.cpp:60-65 | no link joins an IP to itself exactly when no master entry of the configuration targets its own IP |
| `StreamGraphs.WalkAlternates` | lib/node.cpp:60-65 | along any walk the ports alternate between master and slave |
| `StreamGraphs.GetLoopbackPorts` | lib/node.cpp:73-85 | of the pairs of own ports joined by a path, the first in alphabetical order of the master, then of the slave; two empty names if there is none |
| `StreamGraphs.LoopbackPossible` | lib/node.cpp:148-151 | true exactly when such a pair exists, if no port has the empty name |
| `StreamGraphs.ConnectLoopback` | lib/node.cpp:162-171 | if it returns true, registers carry data from the first such master of the IP back to its slave; with a complete configuration it does so exactly when a loopback exists; without one it follows a null pointer, or fails if the IP has ports of the empty name |
| `BdRing.CompleteBound` | lib/ips/dma.cpp:489-490 | what `FromHw` returns is the longest run of finished descriptors at the head of the queue |
| `BdRing.NextInOrder` | lib/ips/dma.cpp:379-388 | stepping with `BdRingNext` visits the descriptors of a batch in queue order |
| `BdRing.SlotsDistinct` | lib/ips/dma.cpp:341-398 | no descriptor is in two queues |
| `ScatterGather.ProgramMeaning` | lib/ips/dma.cpp:352-388 | programming succeeds exactly when every piece is acceptable; then each descriptor of the batch holds its piece and no other descriptor changes |
| `ScatterGather.PiecesTile` | lib/ips/dma.cpp:344-388 | the pieces of a read follow each other without gap or overlap and stay inside the buffer |
| `ScatterGather.HandOver` | lib/ips/dma.cpp:390-396 | handing over appends exactly the allocated descriptors to the hardware queue |
| `ScatterGather.Enqueue` | lib/ips/dma.cpp:341-398 | allocating, programming and handing over puts exactly the batch behind what hardware owns, and takes it from the front of the free list |
| `ScatterGather.SubmitReadMeaning` | lib/ips/dma.cpp:341-398 | a read is accepted exactly when buffer, free descriptors and pieces suffice; when it throws after allocating, descriptors are stranded |
| `ScatterGather.SubmitWriteMeaning` | lib/ips/dma.cpp:291-339 | a write is accepted exactly when a descriptor is free and address and length are allowed; then one descriptor joins the hardware queue |
| `ScatterGather.ReadMeaning` | lib/ips/dma.cpp:270-288 | empty and oversized reads leave the ring alone; any other is accepted exactly when buffer, descriptors and pieces suffice, and then the hardware gets the pieces of this buffer |
| `ScatterGather.BatchIs` | lib/ips/dma.cpp:364-388 | these pieces: the k-th descriptor of a read has the address k messages into the buffer and the length of one |
| `ScatterGather.PiecesOkIff` | lib/ips/dma.cpp:364-388 | they can be programmed exactly when the length is allowed and each address is aligned, or the engine realigns |
| `ScatterGather.WriteMeaning` | lib/ips/dma.cpp:248-268 | empty and oversized writes leave the ring alone; any other is accepted exactly when a descriptor is free and buffer and length are allowed, and then the hardware gets this buffer with this length as a whole frame |
| `ScatterGather.Dequeue` | lib/ips/dma.cpp:489-534 | retiring takes exactly the oldest finished descriptors, up to the limit, and returns their slots to the end of the free list |
| `ScatterGather.RetireMeaning` | lib/ips/dma.cpp:505-534 | either the batch is reported and free again, or one of its descriptors shows an error and the batch is stranded |
| `ScatterGather.CompleteReadMeaning` | lib/ips/dma.cpp:458-535 | all branches of a read completion: time-out, spurious interrupt, partial and full batch, the exhausted error budget, each with what is retired and reported, and why it throws |
| `ScatterGather.CompleteWriteMeaning` | lib/ips/dma.cpp:400-456 | the same for a write completion |
| `ScatterGather.TooManyPartialReads` | lib/ips/dma.cpp:463-497 | from initialisation on, over any events: a read completion throws for too many partial batches exactly when it is partial and 32 partial ones came before it since the last full batch, time-outs and unexpected interrupts aside |
| `ScatterGather.TooManyPartialWrites` | lib/ips/dma.cpp:405-417 | for writes: exactly when 32 partial ones came before it since initialisation |
| `ScatterGather.ReadBytes` | lib/ips/dma.cpp:511-524 | the bytes a returning read completion reports, against the bytes received into the descriptors it retires: equal if all lengths are, never too few if none exceeds the head, never too many if none is below it, and in both cases equal only if all lengths are |
| `ScatterGather.WriteBytes` | lib/ips/dma.cpp:435-446 | the same for a write completion and the lengths asked for |
| `ScatterGather.BytesExactWhenFull` | lib/ips/dma.cpp:511-524 | if the first message of a retired batch is full, the reported bytes are those received exactly when all messages of the batch are |
| `ScatterGather.SingleReadIsCounted` | include/villas/fpga/ips/dma.hpp:133-133 | with a coalesce value of one, a read completion that returns reports exactly the bytes received into what it retires |
| `ScatterGather.SingleWriteIsCounted` | include/villas/fpga/ips/dma.hpp:132-132 | the same for a write completion and the lengths asked for |
| `ScatterGather.PairIsMiscounted` | lib/ips/dma.cpp:511-524 | with a coalesce value of two, a completion that finds two finished messages reports twice the first, on a ring where nothing else is wrong |
| `ScatterGather.FinishMeaning` | lib/ips/dma.cpp:488-490 | the hardware finishes the first unfinished descriptor of its queue and touches no other |
| `ScatterGather.StepIs` | lib/ips/dma.cpp:248-535 | each call and each hardware step concerns its own ring and budget, and only calls throw |
| `ScatterGather.StepConserves` | lib/ips/dma.cpp:291-535 | every driver call that returns and every hardware step keeps free plus hardware-owned descriptors at the ring size, with none in between |
| `ScatterGather.RunConserves` | lib/ips/dma.cpp:291-535 | the same over every interleaving of reads, writes, completions and hardware steps |
| `ScatterGather.RunFromInitial` | lib/ips/dma.cpp:291-535 | the same from initialisation on |
| `ScatterGather.ReadStrands` | lib/ips/dma.cpp:341-398 | a read that finds descriptors stranded before the hardware throws and adds its own to them; what is stranded stays |
| `ScatterGather.TakeBackStrands` | lib/ips/dma.cpp:505-534 | a completion that takes something back and finds a batch stranded behind the hardware cannot free it |
| `ScatterGather.StrandedForGood` | lib/ips/dma.cpp:291-535 | over every sequence of events, throwing or not, what is stranded in either ring stays at the front of its queue |
| `ScatterGather.LaterReadsThrow` | lib/ips/dma.cpp:341-398 | after descriptors have been stranded before the hardware and any events since, every read that gets to the ring throws |
| `ScatterGather.LaterCompletionsThrow` | lib/ips/dma.cpp:505-534 | after a batch has been stranded behind the hardware and any events since, every completion that would take something back throws |
| `ScatterGather.LaterWritesThrow` | lib/ips/dma.cpp:291-339 | the same for writes |
| `ScatterGather.LaterWriteCompletionsThrow` | lib/ips/dma.cpp:429-456 | the same for write completions |
| `ScatterGather.Dma.Init` | lib/ips/dma.cpp:25-66 | accepted exactly when the ring holds two batches of either kind; then both rings are empty and whole |
| `ScatterGather.Dma.Read` | lib/ips/dma.cpp:270-288 | empty and oversized reads leave the ring alone, others do what a scatter-gather read does |
| `ScatterGather.Dma.ReadScatterGather` | lib/ips/dma.cpp:341-398 | the method does to the ring what its specification says, on every branch |
| `ScatterGather.Dma.Write` | lib/ips/dma.cpp:248-268 | as for reading |
| `ScatterGather.Dma.WriteScatterGather` | lib/ips/dma.cpp:291-339 | as for reading |
| `ScatterGather.Dma.ReadComplete` | lib/ips/dma.cpp:458-535 | loops, counters and error budget do what the specification of a completion says |
| `ScatterGather.Dma.WriteComplete` | lib/ips/dma.cpp:400-456 | the same for writes |
| `ScatterGather.Dma.SumHead` | lib/ips/dma.cpp:511-531 | the status loop finds an error exactly when a retired descriptor has one, and adds the head's length once per descriptor |
| `StdoutReader.TargetsApart` | src/villas-fpga-ctrl.cpp:140-148 | no two outstanding descriptors share memory |
| `StdoutReader.StepLands` | src/villas-fpga-ctrl.cpp:143-148 | a message of any length that fits lands in its own piece of a submitted block and leaves the block being formatted alone |
| `StdoutReader.SubmitInStep` | src/villas-fpga-ctrl.cpp:147-147 | the next read never fails, and its batch goes behind the one already out |
| `StdoutReader.CompleteInStep` | src/villas-fpga-ctrl.cpp:148-148 | a full completion retires exactly the current block, which then holds its messages each at its piece, counts the first for all, and leaves only the other block out |
| `StdoutReader.BatchReadsBack` | lib/ips/dma.cpp:344-388 | a full batch in memory reads back as the concatenation of its messages |
| `StdoutReader.StdoutReader.CompleteBatch` | src/villas-fpga-ctrl.cpp:148-155 | the completion reports one batch by its first message, and the block holds that batch |
| `StdoutReader.StdoutReader.Format` | src/villas-fpga-ctrl.cpp:156-170 | formatting prints the block as it was, up to the last word counted, although the hardware goes on writing to the other one |
| `StdoutReader.StdoutReader.Round` | src/villas-fpga-ctrl.cpp:143-174 | one turn of the loop prints its block as it was at the completion, when it held the batch of this turn, and swaps the roles of the blocks |
| `StdoutReader.StdoutReader.ReadFromDmaToStdOut` | src/villas-fpga-ctrl.cpp:121-175 | after any number of rounds the output is each round's block as it was when it held the batch of that round; where every round prints exactly, it is all that was received, in order |
| `StdoutReader.ExactPrints` | src/villas-fpga-ctrl.cpp:156-167 | a round prints exactly its messages if they fill whole words and are all full, or all empty, or just one |
| `StdoutReader.ExactIff` | src/villas-fpga-ctrl.cpp:156-167 | that is so whatever else the block contains exactly under this condition on the lengths |
| `StdoutReader.TurnsIffFullBatches` | src/villas-fpga-ctrl.cpp:143-174 | queueing one batch per turn, the blocks take turns exactly as long as each turn takes one full batch off |
| `StdoutReader.ReadAppendsBlock` | lib/ips/dma.cpp:341-398 | an accepted read appends one batch of its block to the queue |
| `StdoutReader.CompletionDropsBlocks` | lib/ips/dma.cpp:458-535 | a completion, however it ends, drops descriptors from the front of the queue only |
| `StdoutReader.WorkKeeps` | src/villas-fpga-ctrl.cpp:143-174 | hardware steps, with any status and number of bytes, change neither the queue nor where its descriptors point |
| `StdoutReader.RunQueue` | src/villas-fpga-ctrl.cpp:140-174 | in every run in which no call throws, time-outs and partial batches included, the hardware queue just before each completion holds the blocks that the reads and completions so far entail |
| `StdoutReader.RunTakesTurnsIff` | src/villas-fpga-ctrl.cpp:140-174 | in such a run the queue is always the current block's batch and the next one's exactly when every completion but the last takes back one full batch |
| `StdoutReader.FullRunsExist` | src/villas-fpga-ctrl.cpp:140-174 | runs of any length exist in which every completion takes back one full batch |
| `StdoutReader.FullTurnsInTurn` | src/villas-fpga-ctrl.cpp:140-174 | before each completion of a run of full batches the queue is the two batches, pointing into their blocks, and the rest of the ring is free |
| `StdoutReader.FullTurnsAreSafe` | src/villas-fpga-ctrl.cpp:147-173 | after it nothing the hardware owns reaches into the block about to be formatted, and whatever it does meanwhile the next read is accepted |
| `CliText.Inijoin` | thirdparty/CLI11/CLI11.hpp:754-771 | the loop prints the arguments separated by blanks, each quoted as needed |
| `CliText.SplitUp` | thirdparty/CLI11/CLI11.hpp:181-224 | the loop takes the line apart as the specification of a split says |
| `CliText.TakePrinted` | thirdparty/CLI11/CLI11.hpp:186-211 | a surviving argument at the head of a printed line is taken off unharmed |
| `CliText.TakeBroken` | thirdparty/CLI11/CLI11.hpp:761-767 | an argument with white space and both kinds of quotes is not |
| `CliText.PiecesInk` | thirdparty/CLI11/CLI11.hpp:181-224 | splitting keeps every character that is not white space, apart from the quotes that delimit pieces |
| `CliText.KindsForced` | thirdparty/CLI11/CLI11.hpp:181-224 | if a printed line splits back, quotes were used exactly for arguments with white space |
| `CliText.TailRoundTrip` | thirdparty/CLI11/CLI11.hpp:181-224 | given well-formed plain arguments, the line splits back exactly when each argument survives |
| `CliText.RoundTripIff` | thirdparty/CLI11/CLI11.hpp:754-771 | for all argument lists: splitting undoes printing exactly when every argument survives |
| `CliWords.UnwrapIff` | thirdparty/CLI11/CLI11.hpp:673-698 | a word is split into a name and more exactly when it is `--name=more`, `--name` or `-n` followed by more, with a name that starts like one and, if long, has no equals sign |
| `CliWords.LowerIff` | thirdparty/CLI11/CLI11.hpp:1464-1485 | names that ignore case are equal when their letters differ in case at most |
| `CliParser.ValidSubIsHandled` | thirdparty/CLI11/CLI11.hpp:2608-2635 | a word classified as a subcommand is entered or eaten, at whatever level of parents it was recognised and whatever maxima are reached |
| `CliParser.PushBackShrinks` | thirdparty/CLI11/CLI11.hpp:2996-2999 | pushing back the rest of a group of flags leaves less to read |
| `CliParser.ArgShrinks` | thirdparty/CLI11/CLI11.hpp:2901-3000 | every way through option parsing leaves less to read and never ends in the horrible error |
| `CliParser.OrderCountsResults` | thirdparty/CLI11/CLI11.hpp:2943-2989 | an option occurs in the parse order as often as it has results |
| `CliParser.ParseOrderAgrees` | thirdparty/CLI11/CLI11.hpp:2848-2876 | the same of the fields of any app the parser has reached |
| `CliParser.ResultsKeepOrder` | thirdparty/CLI11/CLI11.hpp:2943-2989 | results of an option are in command-line order, and each is the word at its place or the value that an option word for this very option carries there |
| `CliParser.CheckOptionsIff` | thirdparty/CLI11/CLI11.hpp:2704-2724 | the final checks pass exactly when every option has what its definition demands: presence, minimum count, needed and excluded options |
| `CliParser.AppetiteAfterOwn` | thirdparty/CLI11/CLI11.hpp:2943-2989 | a value inside the option word does not change how many more words the option takes |
| `CliParser.Parser.ParsePositional` | thirdparty/CLI11/CLI11.hpp:2848-2876 | the word goes to the first hungry positional up the fallthrough chain, else to the leftovers with all that follow a prefix command |
| `CliParser.Parser.EatUnlimited` | thirdparty/CLI11/CLI11.hpp:2960-2980 | an unlimited option eats its minimum, and all plain words unless positionals compete |
| `CliParser.Parser.EatFixed` | thirdparty/CLI11/CLI11.hpp:2982-2989 | an option with a fixed number eats that many words, or all there are |
| `CliParser.Parser.ApplyOption` | thirdparty/CLI11/CLI11.hpp:2933-3000 | what a found option records, consumes, pushes back and when it fails |
| `CliParser.Parser.ParseArg` | thirdparty/CLI11/CLI11.hpp:2901-3000 | the horrible error comes exactly for a word that is no option, else the option's owner up the fallthrough chain takes it |
| `CliParser.Parser.ParseSubcommand` | thirdparty/CLI11/CLI11.hpp:2881-2898 | the horrible error comes exactly when no level knows the subcommand; otherwise it is entered, or eaten by a required positional |
| `CliParser.Parser.ParseSingle` | thirdparty/CLI11/CLI11.hpp:2810-2834 | each class of word gets to its handler, which is told exactly; less is left to read afterwards, and the horrible error does not come |
| `CliParser.Parser.Parse` | thirdparty/CLI11/CLI11.hpp:2638-2739 | the token loop ends; without an error nothing is left to read, the app and all apps entered below it pass their final checks, and the run is a chain of turns each of which hands the word on top to its handler |
| `CliParser.Parser.Finish` | thirdparty/CLI11/CLI11.hpp:2646-2739 | which check fails first, and that the stack holds the leftovers in reverse when they are the reason |
| `CliParser.Parser.ParseCommandLine` | thirdparty/CLI11/CLI11.hpp:2638-2739 | on a fresh parser: it ends, never horribly, records agree with the trace, and without an error every word is covered in order by events it gives rise to, every option of every app entered is satisfied, and the run is such a chain of turns |
| `CliMeaning.EveryTurn` | thirdparty/CLI11/CLI11.hpp:2638-2739 | in such a run every turn, of whichever subcommand at whatever depth, hands its word to its handler |
| `CliMeaning.RecognizeIs` | thirdparty/CLI11/CLI11.hpp:2608-2635 | how a word is classified: the mark, the name of a subcommand still open at some level, a long or short option, or plain |
| `CliMeaning.OptionWord` | thirdparty/CLI11/CLI11.hpp:2901-3000 | a word `--name=value`, `--name` or `-nrest` goes to the first option that lists the name, at the first level of the fallthrough chain that has one; the trace gets that value for it, then the following words it takes, and the stack keeps the others |
| `CliMeaning.OwnerIff` | thirdparty/CLI11/CLI11.hpp:2919-2936 | that option and no other is found |
| `CliMeaning.AppetiteIs` | thirdparty/CLI11/CLI11.hpp:2960-2993 | how many following words an option takes: the fixed number or all there are; for an unlimited one all plain words in a row, or only its minimum if positionals wait |
| `CliMeaning.UnknownOption` | thirdparty/CLI11/CLI11.hpp:2924-2933 | an option word that no level lists is left over at the last one |
| `CliMeaning.FlagWithValue` | thirdparty/CLI11/CLI11.hpp:2942-2980 | a flag takes no word behind it, unless it is given a value with an equals sign and the next word is plain |
| `CliMeaning.PlainWord` | thirdparty/CLI11/CLI11.hpp:2848-2876 | a plain word, or any behind the mark, goes to the first positional with room, at the first level of the chain that has one, else to the leftovers, with all that follow if the last level is a prefix command |
| `CliMeaning.TakerIff` | thirdparty/CLI11/CLI11.hpp:2848-2866 | that positional and no other is found |
| `CliMeaning.MarkWord` | thirdparty/CLI11/CLI11.hpp:2813-2818 | two dashes alone are left over and end the options |
| `CliMeaning.AfterMark` | thirdparty/CLI11/CLI11.hpp:2810-2834 | behind them every word of the run is read as a positional |
| `CliMeaning.SubWord` | thirdparty/CLI11/CLI11.hpp:2881-2898 | the name of an open subcommand enters the first one with that name at the first level that has it, unless a level before misses a required positional, which takes the word |
| `CliMeaning.HandlerIs` | thirdparty/CLI11/CLI11.hpp:2881-2898 | which level deals with such a name |
| `CliMeaning.EntersOnce` | thirdparty/CLI11/CLI11.hpp:2885-2891 | entering lists the subcommand once and marks it, and changes nothing else |
| `CliMeaning.FinishErrorIs` | thirdparty/CLI11/CLI11.hpp:2697-2738 | which error the final checks end with, and for which option |
| `BringUp.ScanIsFullIff` | lib/core.cpp:72-81 | one pass of the scan is well defined and picks all IPs of a class exactly when no two of them are neighbours and none is last |
| `BringUp.OrderIsPermutation` | lib/core.cpp:72-84 | ordering loses and doubles no IP, even when the scan skips some |
| `BringUp.OrderIsSorted` | lib/core.cpp:67-84 | when every pass is full, listed classes come first in list order, even if classes overlap |
| `BringUp.OrderIsExact` | lib/core.cpp:72-84 | when every pass is full the order is known: class by class, the IPs of each class the other way round, then all others as they stand |
| `BringUp.ScanIsPositional` | lib/core.cpp:75-80 | one pass is well defined exactly when the run of IPs of the class that ends the list has even length, and it keeps all but the first, third, ... of each run |
| `BringUp.OrderIsSortedIff` | lib/core.cpp:67-84 | for IPs that fit one class at most: listed classes come first in list order exactly when an even number of the last class present ends the list, no unlisted IP precedes one of it that is skipped, and earlier classes are spaced out in what is kept |
| `BringUp.NamedFitsOne` | lib/core.cpp:32-37 | IPs with a name in their tag fit one class of the source's list at most |
| `BringUp.NeighboursAreSkipped` | lib/core.cpp:75-80 | a list whose order is not sorted: two neighbours of a class between two other IPs |
| `BringUp.Sorter.PickClass` | lib/core.cpp:75-80 | the loop with erase and step does what the specification of one pass says |
| `BringUp.Sorter.Sort` | lib/core.cpp:72-84 | all passes and the final splice give the specified order |
| `BringUp.Configure` | lib/core.cpp:91-237 | the pass over the ordered list does what its specification says, exception or records |
| `BringUp.ConfiguresMade` | lib/core.cpp:91-120 | the pass leaves records of exactly the IPs whose first matching plugin makes an instance, in order |
| `BringUp.RecordAt` | lib/core.cpp:122-171 | the record of each such IP: whether it is a controller, and an interrupt in its table exactly when its entry is well formed and names a controller that stands before, with the number it spells and that controller |
| `BringUp.ConfigureFailsIff` | lib/core.cpp:145-167 | the exception escapes the pass exactly when an entry of an IP that is made is well formed, its controller stands before, and its number does not fit |
| `BringUp.FactoryMakes` | lib/core.cpp:102-120 | the plugin used is the first whose tag matches |
| `BringUp.ResolveIrqs` | lib/core.cpp:129-171 | the loop over the interrupt entries of an IP gives the specified table, or the exception of a number out of range |
| `BringUp.ResolveFailsIff` | lib/core.cpp:161-167 | the exception escapes exactly when some entry that would resolve has a number that does not fit |
| `BringUp.ResolveAllMeaning` | lib/core.cpp:135-170 | an entry is in the table exactly when it is well formed and its controller is configured, and then with its number and controller |
| `BringUp.LookupConfigured` | lib/core.cpp:146-153 | looking a controller up among configured IPs finds what the ordered list says about it |
| `BringUp.IrqResolvesIff` | lib/core.cpp:145-169 | if numbers fit, a well-formed entry is in the table of its IP's record exactly when the controller it names stands before the IP |
| `BringUp.LaterClassResolves` | lib/core.cpp:32-37 | in a sorted order the interrupts of an IP ranked behind its controller are in its record |
| `BringUp.MakeResolves` | lib/core.cpp:67-171 | from the configuration on: distinct names, IPs placed well, numbers that fit and a controller of an earlier class suffice for an interrupt to be in the record, with its number and controller |
| `IommuCard.MapAgrees` | lib/card.cpp:96-133 | mapping keeps table and IOMMU in bijection; the answer is true exactly when the IOMMU is there and the block is mapped already, which changes nothing, or an address is offered, where it then is live with its size; a false answer changes nothing |
| `IommuCard.UnmapAgreesIff` | lib/card.cpp:73-93 | unmapping succeeds exactly for a mapped block, and keeps the bijection exactly when the translation found has the address in force |
| `IommuCard.RemapLeaks` | lib/card.cpp:73-133 | map, unmap, map elsewhere, unmap: the second mapping stays |
| `IommuCard.RunSound` | lib/card.cpp:73-133 | over every run without remapping, table and IOMMU are in bijection and each mapping ever made is live or was unmapped once |
| `IommuCard.MappedIff` | lib/card.cpp:73-133 | over every run a block is mapped exactly when some request for it was granted an address and it was not unmapped since |
| `IommuCard.Card.MapMemoryBlock` | lib/card.cpp:96-133 | the method does what the specification says, on every branch |
| `IommuCard.Card.UnmapMemoryBlock` | lib/card.cpp:73-93 | the same for unmapping |
| `IommuCard.Card.Destroy` | lib/card.cpp:16-38 | after teardown nothing is mapped and every mapping ever made has been unmapped exactly once |
| `GpuChunks.ChunkSizeMeaning` | gpu/src/gpu.cpp:391-391 | the rounded size is a multiple of the page, larger than the request by one page at most, exactly unless it wraps around |
| `GpuChunks.OneChunkIsEnough` | gpu/src/gpu.cpp:418-419 | without wrap-around the call never looks at a second answer of the device |
| `GpuChunks.NoChunkIsEnough` | gpu/src/gpu.cpp:388-419 | with wrap-around the chunks granted pile up and the first refusal ends the call |
| `GpuChunks.DivergesIff` | gpu/src/gpu.cpp:376-420 | however many chunks the device grants, the call goes on asking exactly when no chunk has room, the size wraps around, and none is refused |
| `GpuChunks.AllocateMeaning` | gpu/src/gpu.cpp:376-420 | the caller gets one new block of the size asked for; when it is refused, and how many chunks were bought meanwhile, exactly |
| `GpuChunks.UsedIsGiven` | gpu/src/gpu.cpp:368-421 | over any run, the bytes the chunks count as used are the bytes handed out |
| `GpuChunks.AllocateSound` | gpu/src/gpu.cpp:368-421 | one allocation keeps chunks apart and blocks apart and inside chunks |
| `GpuChunks.RunIsSound` | gpu/src/gpu.cpp:368-421 | the same over any run |
| `GpuChunks.BlocksLieInOneChunk` | gpu/src/gpu.cpp:368-421 | over any run, each block that is not empty lies in one chunk and overlaps no other |
| `GpuChunks.GpuAllocator.AllocateBlock` | gpu/src/gpu.cpp:368-421 | the recursive method does what the specification says, for any answers of the device |
| `Samples.AllVisibleIff` | include/villas/fpga/utils.hpp:72-75 | the printed C string is the concatenation of the samples exactly when all but the last fill their slots |
| `Samples.ShortShowsAll` | include/villas/fpga/utils.hpp:101-120 | in the short format everything is printed |
| `Samples.LongShowsFirst` | include/villas/fpga/utils.hpp:122-140 | in the long format only the first sample is printed |
| `Samples.ShowsFrom` | include/villas/fpga/utils.hpp:72-75 | from the head of any slot, the C string in the buffer is what is visible of the samples from there on |
| `Samples.WriteStores` | include/villas/fpga/utils.hpp:96-115 | a text cropped and terminated in the next slot harms no stored one |
| `Samples.BufferedSampleFormatter.Format` | include/villas/fpga/utils.hpp:106-115 | one text, cropped to its slot, is added; it throws exactly when cropped; with all slots used it writes behind them |
| `Samples.BufferedSampleFormatter.Output` | include/villas/fpga/utils.hpp:72-75 | prints what is visible of the texts since the last clear, and clears |
| `Samples.BufferedSampleFormatter.ClearBuf` | include/villas/fpga/utils.hpp:76-82 | zeroing the heads of the used slots restores an empty buffer |
| `SampleOutput.FormattedIs` | src/villas-fpga-ctrl.cpp:157-167 | samples are formatted up to and including the first whose text is too long |
| `SampleOutput.PrintBatch` | src/villas-fpga-ctrl.cpp:156-171 | a batch is printed, skipped with its texts left in the buffer, or overruns the buffer, each exactly when; and what is printed |
| `SampleOutput.PrintAll` | src/villas-fpga-ctrl.cpp:143-175 | how every turn ends, from the batches alone, until one overruns the buffer |
| `SampleOutput.KeptLength` | src/villas-fpga-ctrl.cpp:156-171 | the buffer holds the samples formatted since the last output |
| `SampleOutput.OverflowsIff` | src/villas-fpga-ctrl.cpp:156-171 | a turn overruns the buffer exactly when more samples were formatted since the last output than there are slots, those of skipped batches included |
| `SampleOutput.SkippedThenOverrun` | src/villas-fpga-ctrl.cpp:156-171 | two batches that each have room by themselves, and the second overruns the buffer because the first was skipped |
| `SampleOutput.RoundOverrunsIff` | src/villas-fpga-ctrl.cpp:157-167 | where no text is too long, a round of the reader overruns the buffer exactly when the words of its batch, counted by the first message, outnumber the slots |
| `Intc.RegistersFollowHistory` | lib/ips/intc.cpp:76-119 | over any sequence of calls both registers and the table say of each line what the last call about that line said; other lines are untouched |
| `Intc.PollingAgrees` | lib/ips/intc.cpp:88-100 | a line enabled at least once is marked polled exactly when its IMR bit is clear, and then its IER bit is clear, too |
| `Intc.BeyondReportedLines` | lib/ips/intc.cpp:88-91 | beyond the lines the device reports, registers change but the table does not |
| `Intc.InterruptController.Init` | lib/ips/intc.cpp:65-69 | registers start disabled and fast-acknowledging |
| `Intc.InterruptController.EnableInterrupt` | lib/ips/intc.cpp:76-108 | the method does to registers and table what one step of the history says |
| `Intc.InterruptController.DisableInterrupt` | lib/ips/intc.cpp:110-119 | only the IER changes, by the mask |
| `I2c.FreeAfterMeaning` | lib/ips/i2c.cpp:161-178 | the wait ends with the first interrupt that finds the bus free, or after ten that do not |
| `I2c.AttemptedMeaning` | lib/ips/i2c.cpp:93-101 | a try attempts at most twice; it fails for a refusal or a bus busy for ten waits, and may go on after two busy answers |
| `I2c.AwaitedMeaning` | lib/ips/i2c.cpp:102-114 | waiting stops at a transfer interrupt, a time-out or the tenth interrupt, whichever comes first |
| `I2c.TransferBounded` | lib/ips/i2c.cpp:82-125 | under every schedule at most 20 attempts and 300 waits |
| `I2c.TransferMeaning` | lib/ips/i2c.cpp:82-159 | a normal return means a transfer interrupt in the last wait and, when writing, no error counted |
| `I2c.TransferIsTries` | lib/ips/i2c.cpp:89-116 | a transfer is a sequence of tries and ends with the first that is refused, stuck, or brings an interrupt |
| `I2c.NoInterruptIff` | lib/ips/i2c.cpp:115-120 | the lack of an interrupt is reported exactly when nine tries bring none and the tenth is neither refused nor stuck |
| `I2c.HeardIff` | lib/ips/i2c.cpp:102-114 | waiting ends with a transfer interrupt exactly when the schedule has one among these waits, before any that times out |
| `I2c.TryOnSchedule` | lib/ips/i2c.cpp:90-114 | whether a try brings an interrupt, read off the schedule |
| `I2c.UntrueReportIff` | lib/ips/i2c.cpp:115-120 | the report is untrue exactly when, after nine quiet tries, the tenth is neither refused nor stuck and the schedule has a transfer interrupt among its ten waits, before any that times out |
| `I2c.TenthTryIsLost` | lib/ips/i2c.cpp:89-120 | a schedule where that happens |
| `I2c.DoneIff` | lib/ips/i2c.cpp:89-124 | a normal return is exactly a first interrupt within nine tries, without an error in that try when writing |
| `I2c.NothingSentIff` | lib/ips/i2c.cpp:93-101 | a transfer that returns normally has sent nothing exactly when both attempts of each of its tries find the bus busy |
| `I2c.StaleInterrupt` | lib/ips/i2c.cpp:93-116 | a schedule where that happens: the interrupt of an earlier transfer comes late |
| `I2c.Bus.WaitForBusNotBusy` | lib/ips/i2c.cpp:161-178 | the loop stops at the first free bus or throws after ten waits |
| `I2c.Bus.DriverWriteBlocking` | lib/ips/i2c.cpp:82-125 | the nested loops do what the specification says, within 20 attempts and 300 waits |
| `I2c.Bus.DriverReadBlocking` | lib/ips/i2c.cpp:127-159 | the same for reading |
| `VlnvTag.MatchesIffOverlap` | lib/vlnv.cpp:15-30 | two tags compare equal exactly when some concrete tag fits both |
| `VlnvTag.NotTransitive` | lib/vlnv.cpp:15-30 | the comparison is not transitive |
| `VlnvTag.ParseFromString` | lib/vlnv.cpp:32-47 | the four reads and the star rule give the specified tag |
| `VlnvTag.FieldsParse` | lib/vlnv.cpp:32-47 | the tag made of up to four fields between colons: a star or a missing field is a wildcard, and nothing behind a fourth colon counts |
| `VlnvTag.PrintParseIff` | lib/vlnv.cpp:49-59 | printing and parsing gives a tag back exactly when no field contains the delimiter or white space or is a lone star |
| `VlnvTag.ShownParses` | include/villas/fpga/vlnv.hpp:53-61 | what the stream operator writes for a plain tag parses to the same tag |
| `VlnvTag.ShownIs` | include/villas/fpga/vlnv.hpp:53-61 | the printed form: the four fields between colons, a star for each wildcard |

## Left out

Contracts assumed of code outside the repository.

- `StreamGraph::getPath`, `DirectedGraph` and `utils::tokenize` are not part of this model; a path search is a function that finds a shortest walk exactly when there is one, and a tokenizer any function
- The vendor's ring calls move descriptors between four queues, and hardware finishes them in order, at any time, with any status and length
- The memory manager finds the oldest translation of a block and never forgets one; the IOMMU offers unused addresses
- `LinearAllocator` is a bump allocator without padding for alignment, and `cudaMalloc` returns memory apart from all other chunks
- `snprintf` crops and terminates; the text of a number is a parameter

Weaker than the code or on values.

- Routing.StreamCard.Connect: links that join an IP to itself are assumed away by the theorems about it (`NoSelfLink`), because line 110 of lib/node.cpp takes such a link for an internal one; `StreamGraphs.NoSelfLinkIff` says which configurations have none
- Crossbar.AxiStreamSwitch.ConnectInternal: ports of one role must carry different two-digit numbers for table and registers to agree
- StreamGraphs.ConnectLoopback: links that join an IP to itself are assumed away; following the null pointer is a separate outcome
- StdoutReader.StdoutReader.ReadFromDmaToStdOut: every message fits one descriptor and arrives without error, and no completion times out; runs with errors, time-outs and partial batches are those of `StdoutReader.RunQueue`; samples are printed as bytes
- StdoutReader.RunQueue: in runs where no call throws, because a read that throws ends the reader
- ScatterGather.Dma.ReadComplete: the error budget is kept per engine, where the source has one static counter for all, and the lock is not modelled because each call is one step; the source returns from an unexpected interrupt without giving it back (lib/ips/dma.cpp:483-485), after which calls would wait for it, where here they go on
- StdoutReader.StdoutReader.Round: as for the whole loop
- StdoutReader.StdoutReader.CompleteBatch: a full batch has arrived without error; the other completions are those of `ScatterGather.Dma.ReadComplete`
- SampleOutput.PrintAll: batches are lists of texts; that they are the words of the reader's rounds is `SampleOutput.RoundTexts`
- Samples.BufferedSampleFormatter.Format: nothing is said about what writing behind the last slot does
- Intc.InterruptController.EnableInterrupt: registers are sequences of 32 bits, and acknowledging pending interrupts has no effect on the state kept here
- IommuCard.Card.Destroy: the loop removes visited entries from the table, where the source destroys the whole table afterwards
- CliParser.Parser.Parse: apps and options are indices into a tree instead of pointers, so two options sharing one object are not modelled
- BringUp.OrderIsSortedIff: for IPs whose tags fit one class at most, as named ones do; `BringUp.OrderIsSorted` covers the others where every pass is full
- BringUp.Configure: memory views and the plugins' own parsing, which can throw too, are missing
- BringUp.Sorter.Sort: moving the iterator past the end of the list is an outcome of its own (undefined), and nothing is said about what happens then

Not modelled.

- Simple-mode DMA, `Dma::memcpy`, DMA reset and the mapping of ring memory
- `waitForInterrupt`, affinity, MSI set-up and the I2C multiplexer
- JSON loading, memory views, the start pass with `init` and `check`, and lookups on the card
- CLI11 beyond the command line: INI files, environment, callbacks, help text, validators and option construction
- Timer, FIFO, GPIO, EMC, Aurora, RTDS and register IPs: thin register access
- Threads; CUDA, VFIO and MMIO effects beyond the abstract registers and tables above
