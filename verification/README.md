# mainode, verified

mainode is the controller of a video-matching cluster. It streams feature libraries and
query slices to matcher nodes in small numbered packets, spreads the load over the nodes,
follows each node through its life, counts the matches that come back and reports them.
This project is a Dafny model of its logic, with proofs of what that logic promises.

`dafny verify dfyconfig.toml` checks everything. Code that works by changing things step by
step (encoders, decoder, windows, boxes, timer, counters, integral image) is a class or a
method with loops, proved against a specification on values; the properties are lemmas
about that specification. Protocols between threads (the monitors, the node lifecycle, the
load policy) are state machines whose steps are the critical sections, and their theorems
are about every run.

| file | component |
|---|---|
| `Wrappers.dfy`, `Words.dfy`, `PacketStream.dfy` | options, words, byte order, the cutting of a word stream into 360-word packets |
| `NewLib.dfy` | the library decoder `VideoLibVec::store`, the file form |
| `LibLoader.dfy` | `NewLibLoader::load_lib` and the round trip through the decoder |
| `Reading.dfy`, `LibWords.dfy`, `SectionWords.dfy` | what a library stream and a section say, word by word, and a receiver that stops at the end word |
| `Matchers.dfy`, `SectionLoader.dfy`, `SectionFacts.dfy`, `Slicing.dfy` | `BitFeatureLoader`: slices, merge units, labels, packet numbers |
| `Balance.dfy`, `MatcherManager.dfy` | the load policy, and the code that chooses a node and lets loads decay |
| `LoaderRun.dfy` | the slicing loop at work: choice, section and load for each of its calls |
| `RandomGetBox.dfy`, `Monitors.dfy`, `PacketWindow.dfy` | the three kinds of shared buffers |
| `Lifecycle.dfy`, `NodeManager.dfy` | node states under four concurrent threads, and the code that takes each step |
| `MiniTimer.dfy` | periodic and one-time tasks |
| `Results.dfy`, `ReportText.dfy` | result packets, counts by diagonal, reports in batches, and what a line of a report tells its reader |
| `Answers.dfy` | the whole way from a slice sent to the report that names it |
| `Integral.dfy`, `BitFeatures.dfy`, `Nearest.dfy` | the arithmetic kernels |

## Where the code and its promises part

Each of these is proved with its exact condition or with a run that shows it.

- A library record of 32768 features or more does not survive the trip: its size is announced
  in a `short`. Everything smaller does, whatever its words (`LibRoundTrip`). A header that
  looks like `SYNCWORD` announces 0xDCFA features, so it is among the records that fail anyway.
- A section whose words are a multiple of 360 uses up a packet number that is never sent
  (`NumbersRunOn`, `FourMinutesSkip`).
- A slice longer than the threshold but shorter than one merge unit makes `i` wrap around and
  `bit_vec` be read out of range (`FirstAccess`, `LoadSection`).
- A library file that ends early is used all the same, and its last record is sliced past its
  features if the frames announced reach that far (`CallsInRangeIff`, `CutShortIsSliced`,
  `CutAnywhereIsSliced`).
- With a `SliceLen` of 69 minutes or more the offset of a merge unit runs into the bits of the
  slice number, so that results come back under another test (`UnitsNameTheirTestIff`,
  `MinutesThatFit`). With a `SliceLen` of zero the slicing loop never ends (`LoopEndsIff`).
- `load_compare` answers true both ways on equal loads below the threshold, which `std::sort`
  does not allow (`CompareBothWays`, `StrictWeakIff`).
- A node that becomes READY while a section is on its way to a loaded one can break the load
  bound (`JoinIsSafeIff`).
- `increase_load` takes no lock: a decay of the loads between its read and its write is
  overwritten, and can break the bound (`DecayIsSafeIff`, `DecayOverwritten`).
- A `RandomGetBox` told to take an item twice loses another one (`ShrinkIsExact`).
- `notify_all_put` wakes one consumer; with two, one can sleep for ever
  (`StrandsIff`). A `CommQueue` of finite capacity can put both sides to sleep
  (`FiniteQueueStrands`).
- A quit request that comes while a thread is between looking at a node and writing to it is
  lost (`QuitSticksIff`, `LostQuit`), even under the lock of `connect_matcher`, which the
  request does not take (`QuitLostInConnect`).
- A node that leaves and comes back while the library service holds it becomes READY without
  having waited (`AddKeepsWaitedIff`, `NewcomerBypasses`), and while the connection service
  holds it, READY without a connection of its own (`AddKeepsConnectedIff`, `StaleBuilder`).
- A timer task of interval zero is accepted, and the next tick divides by zero (`TimerHandler`).
- The result report names the next library video for a match whose slice would begin one position before
  the video's first frame (`ReportNames`).
- A video whose number has more than ten bits is reported under another (`ReportNamesSlice`).
- A payload with an odd number of words is read one word too far (`PairsInRange`).
- A result packet repeated exactly 256 packets late is taken for a new one (`FilterKeepsOrder`,
  `OldDuplicatePasses`); 255 are harmless (`BoundedDelayKeepsOrder`).

## Model

`src/newlib.h`, `src/integral.h`, `src/match_utils.h`, `src/match_utils.cpp`, `src/comm_window.hpp`
and `src/command.cpp` hold text that is not UTF-8. Rows about them cite the place that uses the
code, or that it uses, and name the file and lines of the code itself in the third column.

| member | source | states |
|---|---|---|
| PacketStream.PacketsCarryStream | src/match_stream.cpp:26-38 | cutting a stream into packets loses and adds nothing; every packet but the last is full and none is empty |
| PacketStream.PutFull | src/match_stream.cpp:28-30 | putting a full slot publishes exactly the next packet of the stream, after all that was sent before |
| PacketStream.CopyWords | src/match_stream.cpp:94-95 | words copied one by one into the slot extend the stream by exactly those words, within the packet |
| NewLib.RunKeepsInv | src/newlib.cpp:35-79 | on every word stream: all records before the open one are complete, the open one is short of its announced size, part of a feature is shorter than a feature, and the frame total is the sum over the records |
| NewLib.RunFeature | src/newlib.cpp:69-74 | inside a record the words of a feature are gathered whatever they are, SYNCWORD included |
| NewLib.RunRecord | src/newlib.cpp:35-79 | sync word, header and features give exactly that record and end between records |
| NewLib.FileRoundTrip | src/newlib.cpp:13-23 | a saved library loads back and ends well if and only if every record announces the positive number of features it holds |
| NewLib.HeaderBytes | src/newlib.cpp:47-57 | the video and the number of features of a header are its first and last two bytes, low byte first in a file and high byte first on the network |
| NewLib.RecordFileSays | src/newlib.cpp:13-23 | a record in the file is the word 0xFADCCAFD, video and frames low byte first, and the features |
| NewLib.RunCutShort | src/newlib.cpp:90-95 | complete records and then one that breaks off after any of its words: all the records load, and the last one has the frames its header announces and only the whole features there are; the decoder ends inside it |
| NewLib.CutAnywhere | src/newlib.cpp:90-95 | a saved library cut after any number of words loads as its first k records, and, if it breaks off inside one, that record with all its frames announced and its first p features |
| NewLib.VideoLibVec.Reset | src/newlib.cpp:90 | (`newlib.h` 27-32) a valid width starts over with nothing; an invalid one changes nothing |
| NewLib.VideoLibVec.Store | src/newlib.cpp:35-79 | one word moves the object exactly as one step of the decoder, and keeps its invariant |
| NewLib.VideoLibVec.Load | src/newlib.cpp:90-93 | after the loop the object is the decoder run over all the words |
| NewLib.SaveLibNew | src/newlib.cpp:13-23 | the file is extended by the record's sync word, header and features in order |
| LibLoader.CheckAndPut | src/match_stream.cpp:26-38 | a full packet is put and the next numbered; the stream written so far does not change |
| LibLoader.LoadRecord | src/match_stream.cpp:78-106 | one record is appended to the stream with its line-aligned header and fill; the assertions hold and no write leaves the packet |
| LibLoader.LoadLib | src/match_stream.cpp:60-131 | for every library the window holds exactly the packets of the unpacketised stream, the last one marked LIB_END |
| LibLoader.Framing | src/match_stream.cpp:60-131 | packets are numbered from 0 mod 256, all but the last are full, the last and only it is LIB_END and of whole 8-word lines, only the first of several is LIB_START |
| LibLoader.HeadInOnePacket | src/match_stream.cpp:78-88 | the header line of every record lies whole in one packet, at a multiple of eight words, at its own place in the stream |
| LibLoader.FeatureInOnePacket | src/match_stream.cpp:91-97 | every feature of every record lies whole in one packet, at its own place in the stream |
| LibLoader.PayloadIsStream | src/match_stream.cpp:60-131 | the payloads of the packets concatenate to the unpacketised stream |
| LibLoader.LibRoundTrip | src/match_stream.cpp:87-97 | feeding the payloads to the decoder gives exactly the non-empty records in order, and ends between records, if and only if every record has fewer than 32768 features |
| LibLoader.DummyArrivesLast | src/lib_load_service.cpp:29-47 | with the dummy record added, a matcher ends with that record, complete, after the library's own |
| LibWords.RecordHasHead | src/match_stream.cpp:83-88 | each record begins with six words of ones, 0xFADCCAFD, and the video and number of features in network order, byte by byte |
| LibWords.RecordHasFeatures | src/match_stream.cpp:91-97 | feature j of a record stands 8 + j * width words after the record's start |
| LibWords.RecordIsFilled | src/match_stream.cpp:99-105 | after the features come fewer than eight words of ones, up to a multiple of eight words, where the next record begins |
| LibWords.LibEnds | src/match_stream.cpp:108-130 | after the records come exactly sixteen words: ones, but for 0xAFCDACDF at the seventh |
| LibWords.StopsAtTheEnd | src/match_stream.cpp:108-112 | a receiver that decodes and stops at the first end word between records stops at that word, whatever words the features have, and has exactly the non-empty records |
| SectionLoader.OffsetsFollow | src/match_stream.cpp:364-388 | the specified unit offsets are those of a loop that goes on where the last unit ended, or backs up once to end with the slice |
| SectionLoader.OffsetsInSlice | src/match_stream.cpp:407-412 | for slices of at least one unit, or at most the threshold, every unit lies inside the slice |
| SectionLoader.FirstAccess | src/match_stream.cpp:366-388 | in 32-bit arithmetic the first unit is in range or skipped if and only if the slice is not between threshold and unit |
| SectionLoader.NextUnit | src/match_stream.cpp:366-388 | where the next unit starts, and that the loop breaks exactly when no more than the threshold is left |
| SectionLoader.SectionLength | src/match_stream.cpp:364-462 | a section is its units and one terminator, each of 8 + unit * width words |
| SectionLoader.SendUnits | src/match_stream.cpp:364-425 | the loop ends although it moves i backward, and has written exactly the units of the specification |
| SectionLoader.SendTerminator | src/match_stream.cpp:429-470 | one unit of zeros closes the section, and the last packet is put if it holds anything |
| SectionLoader.LoadSection | src/match_stream.cpp:333-470 | for every slice and matcher: not ready or a bad unit changes nothing, an empty slice sends nothing, between threshold and unit a packet is numbered and nothing put, otherwise the packets of exactly the section's stream are appended, typed and numbered from the matcher's flag and count, and the count advances by words / 360 + 1 |
| SectionWords.UnitHasHeader | src/match_stream.cpp:390-395 | unit k of a section begins with five words of ones, 0xFADCCAFD, the label of the video, slice and offset k, and the number of features |
| SectionWords.UnitHasFeatures | src/match_stream.cpp:407-412 | feature j of unit k is the slice's frame offset(k) + j, all its words, after the header and the j features before it |
| SectionWords.SectionEnds | src/match_stream.cpp:427-462 | after the units stands one more, labelled with offset zero, all zeros, and nothing after it |
| SectionFacts.Coverage | src/match_stream.cpp:364-388 | a frame is in some unit if and only if the remainder exceeds the threshold or the frame is before it; what is left out is a tail of at most the threshold |
| SectionFacts.LabelNamesTest | src/match_stream.cpp:394 | a unit label shifted right by 12 is the registered test number if and only if offset and test number fit 12 and 20 bits |
| SectionFacts.LabelsInjective | src/match_stream.cpp:394 | (fields read back in `match_utils.h` 79-83) within 10, 10 and 12 bits, different units have different labels |
| SectionFacts.SectionNumbers | src/match_stream.cpp:397-405 | one section's packets are consecutive mod 256, and it takes one number more than it sends exactly when its words fill the last packet |
| SectionFacts.FirstFlagOnce | src/match_stream.cpp:355-361 | over a matcher's life the first packet, and no other, has the 0x10 type |
| SectionFacts.NumbersRunOn | src/match_stream.cpp:436-470 | over a life the numbers run on mod 256 if and only if no section but the last has a multiple of 360 words |
| SectionFacts.FourMinutesSkip | src/match_stream.cpp:333-470 | 240 frames of 32-bit features in units of 32 are such a section |
| SectionFacts.LoadSections | src/match_stream.cpp:333-470 | any list of slices sent to one matcher, of which the empty ones send nothing, appends exactly the packets of the matcher's life, which the rows above are about |
| SectionFacts.LifeCarriesStreams | src/match_stream.cpp:333-470 | the payloads of a life are the sections sent, one after another |
| SectionFacts.StreamsConcat | src/match_stream.cpp:333-470 | the sections of two lists of slices are those of the one and then those of the other |
| Slicing.SlicesCoverPrefix | src/match_stream.cpp:300-319 | the (n-1)/g slices are disjoint and consecutive and cover exactly a prefix, leaving 1 to g frames |
| Slicing.CallSays | src/match_stream.cpp:309-311 | call k of a video hands over its vid, k as the slice number, k slices as the position, the slice's size and the record's vector, and registers vid * 1024 + k |
| Slicing.CallsTile | src/match_stream.cpp:304-319 | a frame lies in call k if and only if k is the frame's number divided by the slice's; 1 to g frames are in none |
| Slicing.TestIdsDiffer | src/match_stream.cpp:310-312 | two calls of a video differ in slice number and in registered number |
| Slicing.BitFeatureLoader.LoadVideo | src/match_stream.cpp:296-319 | one record, complete or not, yields exactly the calls of the slices its announced frames give, in order, each with its position, size and vector; pos and num_slice never wrap their 16 bits |
| Slicing.CallsInRangeIff | src/match_stream.cpp:300-319 | all slices handed over lie in the record's features if and only if there are features for all of them, as in every complete record |
| Slicing.CutShortIsSliced | src/match_stream.cpp:274-275 | a file of complete records and one that breaks off is sliced past its features if and only if the frames announced for the last record reach a slice that is not there |
| Slicing.CutAnywhereIsSliced | src/match_stream.cpp:274-275 | the same for a saved library cut after any number of words |
| Slicing.BitFeatureLoader.LoadLoop | src/match_stream.cpp:286-331 | the calls of all videos, as often as the source is repeated; repeating registers no further test number; the load added is that of all frames in the calls; when every slice lies in its vector |
| Slicing.CallsStand | src/match_stream.cpp:295-304 | the calls of a video stand right after those of the videos before it |
| Slicing.TimesSays | src/match_stream.cpp:292-294 | each repetition makes the same calls again, one after another, as many times as asked |
| Slicing.LoopEndsIff | src/match_stream.cpp:304-319 | the loop over the slices of a video of n frames ends if and only if slices have frames or n = 0 |
| Slicing.UnitsNameTheirTestIff | src/match_analyser.cpp:58-60 | the labels made of the video and slice a call hands over all give the number registered for the call if and only if the last unit begins below frame 4096 and the number fits 20 bits |
| Slicing.MinutesThatFit | src/match_stream.cpp:299 | for every merge unit the first of these holds exactly for a SliceLen of up to 68 minutes |
| Balance.CompareBothWays | src/matcher_manager.cpp:13-21 | the comparison is true both ways exactly on equal loads below the threshold |
| Balance.BeforeIsTotalPreorder | src/matcher_manager.cpp:13-21 | up to those ties it orders loads totally and transitively |
| Balance.FirstIsChoice | src/matcher_manager.cpp:265-297 | a matcher may come first if and only if its load is the greatest below the threshold, or the least when none is below |
| Balance.RunStaysBalanced | src/matcher_manager.cpp:242-297 | in every interleaving, from idle, of choices, reads and writes of `increase_load`, additions lost to a decay, departures, and arrivals and decays when they may, no load exceeds max(thres - 1, any other load) by more than one slice |
| Balance.JoinIsSafeIff | src/packet_handle_center.cpp:148-155 | after an idle node becomes READY every run stays balanced if and only if no load is above max(thres - 1, 0) + g and no section on its way is added to a positive load at or above the threshold |
| Balance.DecayIsSafeIff | src/matcher_manager.cpp:242-254 | after a decay every run stays balanced if and only if the loader has not read a load, at or above the threshold, that is above what another load becomes |
| Balance.DecayOverwritten | src/matcher_manager.hpp:165 | a run from idle to such a state: the decay takes everything off two nodes and the write of `increase_load` puts twice a slice back on one |
| Balance.DecaysAddUp | src/matcher_manager.cpp:242-254 | a decay takes the amount off each load, or all of it, and two decays are one of both amounts |
| Balance.StrictWeakIff | src/matcher_manager.cpp:289 | on a set of loads the comparison is the strict weak order `std::sort` demands if and only if no load is below the threshold |
| MatcherManagers.MatcherManager.FindMatchersAtDomainAndState | src/matcher_manager.cpp:327-338 | exactly the nodes of that domain and state, once each and in the order of the list |
| MatcherManagers.MatcherManager.SelectedConcat | src/matcher_manager.cpp:327-338 | the nodes selected of two lists are those of the one and then those of the other |
| MatcherManagers.MatcherManager.ChooseNextMatcherForDomain | src/matcher_manager.cpp:265-297 | the node returned is READY, of the domain, and the policy's choice |
| MatcherManagers.MatcherManager.UpdateAllMatcherLoad | src/matcher_manager.cpp:242-254 | every READY load drops by the amount or to zero, every other load stays |
| LoaderRuns.SendCalls | src/match_stream.cpp:304-318 | making any calls in turn puts the packets of exactly their sections, is a run of the balance machine, and gives every matcher the life of the sections it was chosen for |
| LoaderRuns.LoadsAddUp | src/match_stream.cpp:314 | in such a run the load of each node grows by exactly a slice for each section sent to it |
| LoaderRuns.LoopCallsFit | src/match_stream.cpp:294-319 | the calls of the slicing loop are such calls, if every slice lies in its vector and has a merge unit's frames |
| LoaderRuns.WorkIsBalanced | src/match_stream.cpp:304-318 | so that from idle the loads end balanced |
| RandomGetBoxes.ShrinkIsExact | src/comm_box.hpp:193-202 | the count shrinks to the number of items kept if and only if no target is named twice; otherwise below it |
| RandomGetBoxes.KeptAndTaken | src/comm_box.hpp:185-201 | the items kept and the items taken are together the items there were |
| RandomGetBoxes.GetKeepsSound | src/comm_box.hpp:168-205 | a get with distinct targets keeps the history sound and the held items in the order they were put |
| RandomGetBoxes.NothingLost | src/comm_box.hpp:137-226 | in a sound history every item put is either held or taken, and never both |
| RandomGetBoxes.RandomGetBox.Write | src/comm_box.hpp:151-154 | filling the acquired slot outside the lock changes no item of the box |
| RandomGetBoxes.RandomGetBox.Put | src/comm_box.hpp:207-218 | the staged item joins the list at its end, for both ways of moving, and curr = tail <= N |
| RandomGetBoxes.RandomGetBox.Get | src/comm_box.hpp:168-205 | the end, an empty choice and a bad index leave the box as it was; otherwise the chosen items come out and the others close up in order, the staged slot untouched |
| Monitors.StepIsSafe | src/comm_box.hpp:90-135 | every critical section keeps: put = delivered + held, the capacity, and no end reported while anything is held |
| Monitors.SafeMeans | src/comm_box.hpp:100-115 | what is delivered is a prefix of what was put, and all of it when the end is reported |
| Monitors.OfferedIsPut | src/comm_box.hpp:117-125 | in every run each value is in the history of the box, or with a sleeping producer, exactly as often as put was called with it |
| Monitors.OneConsumerNeverStranded | src/comm_box.hpp:100-125 | one consumer, any producers, any run with spurious wake-ups: a sleeping consumer has nothing to fetch and no end to report, both sides never sleep un-notified together, nobody is stranded |
| Monitors.BoxAndQueueNeverStrand | src/comm_box.hpp:90-125 | so with one consumer neither the box of one item nor the unbounded queue strands anybody |
| Monitors.OneProducerSleepsOnFull | src/comm_box.hpp:117-125 | one producer sleeps un-notified only on a full box, and never while the consumer sleeps |
| Monitors.StrandsIff | src/comm_box.cpp:9-14 | for every capacity and number of threads, some run strands a thread if and only if there are two or more consumers, or the capacity is finite and get does not notify |
| Monitors.FiniteQueueStrands | src/comm_box.hpp:252-266 | with a finite capacity and no notification in get, a run ends with all producers, however many, and the consumer asleep on an empty queue |
| Monitors.CommBox.TryPut | src/comm_box.hpp:117-125 | one pass of put does to box, producer and consumers what the machine's step does: it waits when full, else stores and notifies |
| Monitors.CommBox.TryGet | src/comm_box.hpp:100-115 | one pass of get delivers and notifies, ends or waits exactly as the machine's step does |
| Monitors.CommQueue.TryPut | src/comm_box.hpp:243-250 | one pass of put appends and notifies as the machine's step does |
| Monitors.CommQueue.TryGet | src/comm_box.hpp:252-266 | one pass of get delivers the front, ends or waits as the machine's step does, and notifies nobody |
| PacketWindows.PacketWindow.Write | src/match_stream.cpp:29-35 | (`comm_window.hpp` 51-54) filling the acquired slot touches no packet in flight |
| PacketWindows.PacketWindow.Put | src/match_stream.cpp:28-31 | (`comm_window.hpp` 56-72) the packet joins those in flight, in order, and arms the timeout |
| PacketWindows.PacketWindow.Get | src/match_stream.cpp:152-167 | (`comm_window.hpp` 75-97) the next unsent packet, or after a timeout the first unconfirmed one; the end only when everything put is confirmed |
| PacketWindows.PacketWindow.Confirm | src/packet_handle_center.cpp:144-146 | (`comm_window.hpp` 99-121) confirms the first packet in flight with the index and all before it, and nothing if there is none |
| PacketWindows.ResponseFindsItsPacket | src/packet_handle_center.cpp:138-166 | (`comm_window.hpp` 99-105) with n packets in flight a response, at most 256 - n packets old, finds a packet if and only if its own is in flight, and then that one |
| Lifecycle.RunKeepsInv | src/matcher_manager.cpp:150-216 | in every interleaving, with every test and the write after it as two steps, addresses stay unique, no object becomes UNCONNECTED again, READY comes after LIB_LOADING, and a connection was built to the address of any object that ever waited |
| Lifecycle.StatesChange | src/matcher_manager.hpp:151 | the whole of the transitions: under every step every object keeps its state, or is given the one state that the step writes to it, and that alone joins its history |
| Lifecycle.QuitedLeaves | src/packet_handle_center.cpp:116-134 | an object to be collected whose node says it has quit leaves the list, COLLECTED, and no other object changes |
| Lifecycle.AddKeepsWaitedIff | src/lib_load_service.cpp:49-53 | a node may be added, and in every continuation LIB_LOADING is given only to objects that waited, if and only if the library service does not hold a matcher of that address that has left the list |
| Lifecycle.AddKeepsConnectedIff | src/match_stream.cpp:243-246 | a node may be added, and in every continuation only objects with a connection built to themselves wait, if and only if the connection service does not hold a matcher of that address that has left the list |
| Lifecycle.ReadyHasFullPath | src/packet_handle_center.cpp:138-157 | under these two guards the history of every READY object has a connection built to it, WAIT_LIB_LOAD, LIB_LOADING and READY, at positions in that order |
| Lifecycle.NewcomerBypasses | src/lib_load_service.cpp:84-101 | without the first guard a new object can become READY straight from UNCONNECTED |
| Lifecycle.HeldAndGone | src/packet_handle_center.cpp:116-134 | the state the former starts from is reachable |
| Lifecycle.StaleBuilder | src/match_stream.cpp:243-246 | without the second guard, a run from nothing in which a builder that outlived its object connects the next one, which becomes READY with no connection of its own |
| Lifecycle.QuitSticksIff | src/packet_handle_center.cpp:100-112 | a request to leave, or to remove a node, holds in every continuation if and only if no thread is about to write at that address or to that object |
| Lifecycle.QuitLostInConnect | src/matcher_manager.cpp:196-208 | a run from nothing in which a node asks to quit between the test for UNCONNECTED and the write, and ends WAIT_LIB_LOAD |
| Lifecycle.LostQuit | src/lib_load_service.cpp:49-53 | a run from nothing in which a node is READY after it asked to quit |
| NodeManagers.NodeManager.Find | src/matcher_manager.cpp:172-174 | the matcher object answered is the one the state machine finds at the address, null exactly when there is none |
| NodeManagers.NodeManager.AddMatcher | src/matcher_manager.cpp:150-157 | one AddNode step: a new object with the given parameters, unconnected and without load, joins the list at its end, unless its address is taken |
| NodeManagers.NodeManager.RemoveMatcher | src/matcher_manager.cpp:159-170 | exactly that matcher leaves, and the others keep their order |
| NodeManagers.NodeManager.RemoveNode | src/matcher_manager.cpp:172-182 | (`command.cpp` 98-111) one RemoveNode step: the object at the address is found, if there is one |
| NodeManagers.NodeManager.MarkRemoved | src/matcher_manager.hpp:151 | (`command.cpp` 108) one MarkWrite step: the object found is marked to be collected, whatever has become of it |
| NodeManagers.NodeManager.PickUnconnected | src/connection_build_service.cpp:30-43 | one ConnPick step, of the first unconnected matcher in the list, or there is none |
| NodeManagers.NodeManager.FinishConnection | src/match_stream.cpp:243-246 | (with `matcher_manager.cpp` 196-203) one ConnFinish step: the object at the address is looked up, tested if the connection was built, and what is to be written to it is settled |
| NodeManagers.NodeManager.WriteConnection | src/matcher_manager.cpp:207 | one ConnWrite step: the object found is WAIT_LIB_LOAD, or FAIL_CONNECT without a connection, whatever was written to it since |
| NodeManagers.NodeManager.PickWaiting | src/lib_load_service.cpp:83-95 | one LibPick step, of the first matcher in the list that waits for its library, or none does |
| NodeManagers.NodeManager.StartLoading | src/lib_load_service.cpp:49-53 | one LibStart step: the object at the address is looked up |
| NodeManagers.NodeManager.WriteLoading | src/lib_load_service.cpp:53 | one LibWrite step: it is LIB_LOADING, whatever its state |
| NodeManagers.NodeManager.FinishLoading | src/lib_load_service.cpp:61-62 | one LibDone step: the library service has sent its library and is free for the next matcher |
| NodeManagers.NodeManager.HandlePacket | src/packet_handle_center.cpp:89-166 | each kind of packet is exactly the machine's step for it, and keeps list, objects and threads in accord with the machine |
| NodeManagers.NodeManager.CollectMatcher | src/packet_handle_center.cpp:121-123 | one CollectWrite step: the object that was seen to be leaving is COLLECTED |
| NodeManagers.NodeManager.RemoveCollected | src/packet_handle_center.cpp:124 | one CollectRemove step: it leaves the list, under the lock |
| NodeManagers.NodeManager.LibraryReady | src/packet_handle_center.cpp:150-152 | one LibEndWrite step: the second half of a LIB_END reply |
| MiniTimers.MiniTimer.AddPeriodTask | src/mini_timer.cpp:96-101 | the task gets an id never used before, is filed under its own interval, zero included, and its first call is owed |
| MiniTimers.MiniTimer.FirstCall | src/mini_timer.cpp:99 | an owed first call is made, and then no longer owed |
| MiniTimers.MiniTimer.AddOnetimeTask | src/mini_timer.cpp:91-94 | likewise for a one-time task, which owes no first call |
| MiniTimers.MiniTimer.RemovePeriodTask | src/mini_timer.cpp:74-89 | the periodic task with that id, if present, is removed, and nothing else is |
| MiniTimers.MiniTimer.TimerHandler | src/mini_timer.cpp:119-146 | a good tick divides by zero if and only if a task of interval zero is there, and otherwise runs exactly what is due and drops the one-time tasks it ran; a tick with an error runs nothing and is the last |
| MiniTimers.PeriodTimes | src/mini_timer.cpp:124-132 | a periodic task has run once in each full interval from its adding to the last tick before its removal |
| MiniTimers.OneTimeTimes | src/mini_timer.cpp:133-142 | a one-time task has run once from tick added + interval on, and not before |
| MiniTimers.MiniTimer.Guarantee | src/mini_timer.cpp:56-146 | after any calls a periodic task of interval k added at a has 1 + floor((ran - a) / k) calls made or owed, a one-time task one run from its time on, and each is in the buckets of its kind, under its interval alone, exactly while it may still run |
| Results.SameSequence | src/match_analyser.cpp:56-57 | (`match_utils.h` 85-92) two sections share a key if and only if they agree on test, library video and diagonal mod 65536 |
| Results.RangeIsTest | src/app_manager.cpp:92-101 | (`match_utils.cpp` 277-279 and 287-293) the key range scanned for a test holds exactly its sections |
| Results.ReportNames | src/app_manager.cpp:92 | (`match_utils.cpp` 281-282) the report names the test and the diagonal plus one, and the right library video if and only if that does not overflow 16 bits |
| Results.LineFits | src/app_manager.cpp:20-28 | (`match_utils.cpp` 276-282) a line is never longer than 92 bytes |
| ReportTexts.LineTells | src/app_manager.cpp:92 | (`match_utils.cpp` 276-282) read back by its attribute names, a line says the video and position of the test, the length of a slice, the second where the diagonal plus one begins in the library, and the section's library video if and only if that position is not zero mod 65536 |
| ReportTexts.LineHasSection | src/app_manager.cpp:92 | (`match_utils.cpp` 274-285) every line of a report tells of a section of the test that was counted and whose diagonal has enough |
| ReportTexts.SectionHasLine | src/app_manager.cpp:92 | (`match_utils.cpp` 274-285) every section of the test whose diagonal has enough has a line that tells of it |
| Results.PairsInRange | src/match_analyser.cpp:49-52 | what a payload does is independent of the word beyond it if and only if it has an even number of words |
| Results.SwapsBytes | src/match_analyser.cpp:52 | the library word is turned round byte by byte |
| Results.PairSays | src/match_analyser.cpp:49-66 | whatever stands before and after it, a pair counts one section of the library video and position in network order and the test word's number and position, or with zeros for both asks for the test's report, or with three zeros does nothing |
| Results.EventsConcatenate | src/match_analyser.cpp:49-66 | payloads of whole pairs may be cut between any pairs |
| Results.FilterKeepsOrder | src/match_analyser.cpp:29-35 | the accepted packets are 0, 1, 2, ... once each if and only if no delivery is whole laps of 256 from the one a receiver comparing full numbers would want; and then there are as many as that receiver takes |
| Results.NearNeverLaps | src/match_analyser.cpp:29-35 | deliveries within 255 of the packet such a receiver wants satisfy that |
| Results.BoundedDelayKeepsOrder | src/match_analyser.cpp:29-35 | so it is enough, of the network alone, that no packet is 256 ahead of what has arrived and none comes 255 behind one that came before it |
| Results.OldDuplicatePasses | src/match_analyser.cpp:29-35 | at 256 it fails: the first packet again is taken for packet 256 |
| Results.StreamIsDelivered | src/match_analyser.cpp:49-66 | the events of accepted packets in order are those of one stream, when payloads are whole pairs |
| Results.RunIsStream | src/match_analyser.cpp:29-66 | a run of deliveries without laps is handled as the stream the matcher wrote, up to the packets accepted |
| Results.PassedOfEach | src/match_analyser.cpp:20-35 | of several matchers' packets in any order, there pass of each the ones its own filter accepts |
| Results.ShareIsStream | src/match_analyser.cpp:20-66 | so what is handled of a matcher whose deliveries do not lap is its own stream, whatever comes from the others in between |
| Results.CountSinceReport | src/app_manager.cpp:88-102 | (`match_utils.cpp` 257-293) a report starts its own test's counts again and leaves those of all others |
| Results.CountIsNumber | src/app_manager.hpp:48 | (`match_utils.cpp` 257-261) the count of a diagonal is the number of its sections since the last report of its test |
| Results.ReportedAre | src/app_manager.cpp:92 | (`match_utils.cpp` 274-285) the keys reported are in ascending order and exactly those of the test whose sections since its last report are enough |
| Results.SectionManager.AddSection | src/app_manager.hpp:48 | (`match_utils.cpp` 257-261) the stored counts stay those of the events so far |
| Results.SectionManager.XmlResults | src/app_manager.cpp:92 | (`match_utils.cpp` 274-285) the range scan from `lower_bound` gives the lines of exactly the keys to report, in their order |
| Results.SectionManager.DeleteResults | src/app_manager.cpp:101 | (`match_utils.cpp` 287-293) the stored counts stay those of the events so far, the report included |
| Results.ReportIdsCount | src/app_manager.cpp:45-46 | report numbers count from 0 mod 65536 |
| Results.BatchesCarryLines | src/app_manager.cpp:92-99 | the texts of the batches are all the lines, in order |
| Results.ResultPacket.Send | src/app_manager.cpp:30-47 | one packet of the held text with length 20 + text and the next number; nothing is held afterwards |
| Results.AppDomain.OutputResult | src/app_manager.cpp:88-102 | ceil(n / 12) packets that fit, in twelves, numbered on; the file gets the same lines; the packet is clear again and the test's counts gone |
| Results.MatchAnalyser.HandlePacket | src/match_analyser.cpp:17-67 | only the wanted packet of a known matcher is taken; its pairs are counted and reported in order; its number is used up even when the application is unknown; otherwise nothing changes |
| Results.MatchAnalyser.HandleRun | src/match_analyser.cpp:17-67 | handling the deliveries of any number of matchers one by one counts and reports exactly the packets that pass, in the order they come, and keeps every matcher's count that of its own |
| Answers.LabelComesBack | src/match_analyser.cpp:56-57 | a section with the label sent with unit j of a call is counted for the number registered with the call, mod 2^20, at the frame where the unit begins |
| Answers.ReportNamesSlice | src/app_manager.cpp:88-102 | for every slice of every video, of 1 to 68 minutes: a report of a match with any unit of it gives the second where the slice begins, and the video's number if and only if that has ten bits |
| Integrals.ScaleFor | src/integral.cpp:50-53 | the scale is the least power of two with 960 * scale >= width |
| Integrals.RoundingError | src/integral.cpp:57-63 | scaled back up, entry (i, j) is below the exact prefix sum by at most (i + 1)(scale^2 - 1), and never above it |
| Integrals.IntImage.Init | src/integral.cpp:49-64 | all reads are in bounds and every entry is the specified one |
| Integrals.IntImage.BoxIsExact | src/bit_feature.cpp:67-69 | (`integral.h` 85-100) without scaling a box sum is the sum of the pixels of the box that are inside the picture |
| BitFeatures.TableCounts | src/bit_feature.cpp:36-53 | the table gives the number of bits set in each byte |
| BitFeatures.HammingDistance | src/bit_feature.cpp:86-93 | the distance is the number of bits that differ |
| BitFeatures.DistanceIsMetric | src/bit_feature.cpp:86-93 | zero exactly for equal bits, symmetric, triangle inequality |
| BitFeatures.OrderFeature | src/bit_feature.cpp:59-80 | bit k says which block of pair k is the brighter by box sum; in a picture up to 960 wide, by the block's own pixels; unused bytes are zero |
| BitFeatures.PixelOfBlock | src/bit_feature.cpp:59-70 | a pixel counts once for the block of its row and column of blocks, of 6 by 6, and for no other |
| BitFeatures.DistanceIsPairs | src/bit_feature.cpp:72-78 | the distance of two pictures' features is the number of pairs they order differently |
| BitFeatures.ShortIsPrefix | src/bit_feature.cpp:72-78 | the 64-bit feature is the first half of the 128-bit one |
| Nearest.TwoNearest | src/ipoint.cpp:22-34 | d1 and d2 are the two smallest distances with multiplicity, the sentinel where there are fewer |
| Nearest.MatchPoint | src/ipoint.cpp:20-37 | a candidate is matched if and only if it beats every other one and the sentinel by the threshold; the pointer is never read unset |
| Nearest.StandsOutOnce | src/ipoint.cpp:35-37 | there is at most one such candidate |

## Left out

- Sockets, threads, FIFO transport, logging, configuration and the command parser: packet arrivals, replies, ticks and commands are steps or parameters.
- Wall-clock time and fairness: `PacketWindow.Get` is told whether its wait timed out, and liveness is stated as "nobody is stranded". The retry count of `ConnectionBuilder` is part of this: the connection either was built or not.
- Machine overflow of loads, ids, ticks, section counts and pixel sums: these are unbounded numbers. Packet indices, header words, labels, report numbers, `pos` and `num_slice` have their real widths.
- Features of different widths in one library: every feature of a library has the width it was loaded with.
- LoadSection: slices of nearly 2^32 frames are excluded. What is read out of range is not modelled, only that it is.
- LoadVideo: a slice length of zero, for which the source never ends (`LoopEndsIff`), is excluded.
- LoadLoop: likewise. It records the calls; `SendCalls` makes them.
- SendCalls: no node enters or leaves and no load decays while it runs; `Balance` has these as steps of their own. Waiting for the window to empty is not modelled.
- FileRoundTrip: files are sequences of words; a file cut inside a word is not modelled.
- ChooseNextMatcherForDomain: `std::sort` is replaced by an insertion sort whose result is a permutation in which nothing stands after what it has to precede. With loads below the threshold the comparison is not what `std::sort` demands (`StrictWeakIff`), and what the library's sort then does is not modelled.
- Matcher states RECEIVING, BUSY and SENDING, which nothing leads into, and loads set by a command.
- TimerHandler: a task that itself calls the timer would wait for its own lock and is not modelled; after a division by zero nothing is promised.
- ResultPacket: fields are in host byte order; the packet starts cleared, which the source's constructor does not do; resending of reports is not modelled.
- MatchPoint: distances are given as non-negative real numbers; the descriptor loops and the split of the points over threads are not modelled.
- HammingDistance: a byte is its eight bits, of which `^`, `|` and `<<` are modelled one by one.
- IntImage: the row-major layout of `Image` is a two-dimensional array here; the reading of picture files is not part of this model.
