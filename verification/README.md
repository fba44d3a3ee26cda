# A verified model of the scalable-video-over-NDN stack

The repository sends H.264 scalable video over Named Data Networking on patched Linux Wi-Fi
drivers. This project models its stateful core in Dafny and proves what it promises, for every
input and every run:

- **SVC layer muxer** (`AnnexB`, `Muxer`, `MuxerTheorems`): byte streams are split at the start
  code of Annex B (section B.1.1) of ITU-T H.264, NAL units are counted by type, and a base layer
  is interleaved with enhancement layers. The flag-driven loops are proved against a schedule in
  closed form, and completeness, alignment and demuxing are theorems about that schedule.
- **Resumable wiphy dump** (`WiphyDump`): a cursor spreads a walk over bands and channels over many
  netlink messages and survives messages that do not fit.
- **Connection monitoring** (`CqmRssi`) and **scan requests** (`ScanRequest`) of the same file: the
  hysteresis of the RSSI thresholds, and the single allocation that holds all parts of a request.
- **Segmented file transfer** (`FileTransfer`): server, pusher and client as a protocol whose
  packets come in any order.
- **NDN packets** (`Tlv`, `NdnName`, `NameOrder`, `DelegationLists`, `DelegationListObject`, `PacketCodec`,
  `DataObject`, `LinkObject`): the TLV encoding of the NDN Packet Format Specification 0.3 and the
  encoder that writes backwards, the order of names, delegation lists, and the cached
  wire and full name of Data and Link.
- **Address blocks** (`Cidr`): blocks as in section 3.1 of RFC 4632 and section 2.3 of RFC 4291.
- **Driver queues** (`TxReport`, `ScanList`): transmission reports with six-bit sequence numbers,
  and the cache of access points seen.

`Basics` holds the few definitions the modules share.

Objects whose methods update fields are classes, and loops are loops. Each method is proved against
a function on values, and the theorems are about those functions and about all runs built from
them. Files, streams, sockets, clocks and drivers are parameters: sequences of bytes, the number of
attributes that still fit a message, the time of an event, the answer of a driver.

Where an expected property does not hold in general, the theorem gives the exact condition:

- The merged file is the plain alignment of access units exactly when enhancement layers hold only
  units of type 20, and the second layer can be recovered exactly when it is empty or has at least
  one unit per access unit (`Alignment`, `DemuxUndoesMerge`, `EnhancementComplete`; `AlignmentFails`
  and `DemuxFails` are inputs of the other kind).
- An unsplit dump that is tried again with a larger buffer loses the rate information of the first
  band exactly when the first try ran out of room inside a channel list (`RetryUnsplit`, `RetryLosesRates`).
- Comparing name components by `memcmp` of their wires agrees with the canonical order exactly when
  a difference in the widths of type or length points the way the components do. It always does for
  minimal headers, as the comment in the source has it, and never between two forms of one component
  (`FastCompareExact`, `FastCompareOnLongForms`).
- Components that have no wire are compared canonically. They make no cycle with two that have wires
  exactly when the `memcmp` of those two agrees with the canonical order (`CyclesExactly`,
  `HalvesDoNotMix`). So a sorted delegation list stays in order over every run whose delegations all
  have wires, as decoded ones do, or whose wires agree with the canonical order, as minimal ones do
  (`EveryRunInOrder`, `WhenInOrder`); otherwise it can call itself sorted and not be
  (`RunLosesOrder`).
- Names are encoded anew with minimal headers, so a delegation list, and the content of a Link, come
  back in the same order exactly when the list is not sorted or is in order also with minimal
  headers (`RoundTrip`, `LongFormsReorder`).
- MetaInfo decodes to itself exactly when no application element can be taken for an absent
  standard field, SignatureInfo exactly when it holds no custom element that decoding refuses, and a
  packet exactly when, besides, it has a signature value (`MetaRoundTrip`, `SigRoundTrip`,
  `PacketRoundTrip`; `AmbiguousMetaIsReachable` and `CriticalCustomElement` show that both failures
  happen).
- `Data::wireDecode` that throws on a Data block leaves a cached wire that does not match the
  fields; so does `Data::wireEncode` when the signature has no value, or MetaInfo or SignatureInfo
  cannot be decoded again (`Data.WireDecode`, `Data.WireEncode`).
- The RSSI range contains every reading exactly when the lowest threshold minus the hysteresis does
  not underflow (`RangesContainReadings`).
- The expiry of the scan list is exact unless an entry's age in milliseconds, cut to 32 bits, has
  come back under the limit (`ExpireRefines`, `ExpiryFails`).
- A transmission report completes the frame it is about exactly when no frame in front of it in the
  queue has the same number modulo 64 (`ReportCompletes`, `ReportsCanBeStolen`).
- An address is in a block exactly when it has its prefix, except that the highest address of an IPv6
  block is not in it with a scope id (`MembershipIsPrefix`).

## Model

| member | source | states |
|---|---|---|
| AnnexB.JoinUndoesSplit | SVC-player/merge.cxx:56-64 | for every stream, writing a start code and each unit of the split gives back the stream from its first start code, and no unit contains one |
| AnnexB.NoStraddle | SVC-player/merge.cxx:11 | a start code cannot begin in a unit and end in the start code that follows it, whatever zeros the unit ends with |
| AnnexB.FindSepIgnoresTail | SVC-player/merge.cxx:58-63 | searching for the next start code inside a stream is not affected by units joined on behind it |
| AnnexB.SplitUndoesJoin | SVC-player/merge.cxx:56-64 | splitting any bytes followed by joined start-code-free units gives the units of those bytes and then exactly the joined units |
| AnnexB.JoinCons | SVC-player/merge.cxx:11 | each unit is written behind the bytes 0, 0, 0, 1 |
| AnnexB.HeaderInBounds | SVC-player/merge.cxx:13-39 | when the last unit is not empty, every header byte the counting loop reads lies inside the stream and is the first byte of a unit of the split |
| AnnexB.CountNalus | SVC-player/merge.cxx:13-39 | the counting loop over the raw stream returns the number of units of a type in the split that the muxer uses |
| AnnexB.SplitStream | SVC-player/merge.cxx:56-64 | the cutting loop yields the split |
| Muxer.EmitBase | SVC-player/merge.cxx:81-122 | one pass over the base layer writes consecutive units up to the next cut and no further; end of stream exactly when no cut is found |
| Muxer.EmitLayer | SVC-player/merge.cxx:123-143 | one pass over an enhancement layer writes the next share of units or what is left, and ends the run exactly when the share runs past the end |
| Muxer.StopsAreCuts | SVC-player/merge.cxx:81-122 | the loop's stopping rule, which looks at the units since the start of the pass, is the position-independent notion of a cut |
| Muxer.ActiveMeansMorePasses | SVC-player/merge.cxx:72-145 | the `active` flag after a pass equals the closed form for the number of passes not being reached |
| Muxer.Pass | SVC-player/merge.cxx:72-145 | a pass moves every position to the closed form of the next pass and appends exactly the difference between the two renderings |
| Muxer.MuxSingle | SVC-player/merge.cxx:72-122 | with one layer the loop ends with all units of the stream written |
| Muxer.MuxMany | SVC-player/merge.cxx:72-145 | with several layers the loop terminates and writes the schedule in closed form |
| Muxer.Mux | SVC-player/merge.cxx:41-147 | `mux` writes init followed by the schedule computed from its counts; with one layer all of it |
| Muxer.Merge | SVC-player/merge.cxx:149-187 | `merge` writes init followed by the joined units of the schedule its own counts give |
| MuxerTheorems.LayersInterleave | SVC-player/merge.cxx:72-145 | after any number of passes the units of each layer in the output are a prefix of that layer, in order, of the length in `positions` |
| MuxerTheorems.PrefixesInterleave | SVC-player/merge.cxx:72-145 | the same at every point inside a pass: wherever the output is cut, what it has of each layer is a prefix of that layer |
| MuxerTheorems.ActivePassesWrite | SVC-player/merge.cxx:72-145 | a pass after which `active` is set has written at least one unit |
| MuxerTheorems.CutsAreSeparators | SVC-player/merge.cxx:81-122 | the base layer has no more cuts than separator units counted |
| MuxerTheorems.CutsAreEverySeparator | SVC-player/merge.cxx:81-122 | a pass of the base layer ends in front of every separator but a first unit, so that units in front of the first separator are a chunk of their own |
| MuxerTheorems.CountBounds | SVC-player/merge.cxx:13-39 | a count by type never exceeds the units and equals them exactly when all have that type |
| MuxerTheorems.EnoughPasses | SVC-player/merge.cxx:69-145 | there are at least as many passes as chunks of the base layer |
| MuxerTheorems.BaseNeverCutShort | SVC-player/merge.cxx:69-145 | for every multi-layer input with a separator, every unit of the base layer is written, also when counts do not divide |
| MuxerTheorems.NoEarlyEndOfStream | SVC-player/merge.cxx:123-143 | no enhancement layer reaches its end before the pass that holds the last chunk of the base layer |
| MuxerTheorems.EnhancementComplete | SVC-player/merge.cxx:123-145 | an enhancement layer is written to its end if and only if it is empty or fits the shares of all passes that the last layer with a share allows |
| MuxerTheorems.CompleteAtEnd | SVC-player/merge.cxx:123-145 | the same for arbitrary shares, in terms of positions |
| MuxerTheorems.PassesAreAligned | SVC-player/merge.cxx:72-145 | the first n passes write n times an access unit of the base layer followed by the layers' slices |
| MuxerTheorems.NothingLater | SVC-player/merge.cxx:72-145 | the passes after the last access unit write nothing exactly when enhancement layers hold only units of type 20 |
| MuxerTheorems.Alignment | SVC-player/merge.cxx:41-187 | with proportional counts the merged bytes are, for each access unit, its base units and the slice of each layer in order, if and only if every enhancement unit has type 20 |
| MuxerTheorems.MergeCutsAtSix | SVC-player/merge.cxx:149-187 | for a base layer that opens with a unit of type 6 and layers of type-20 units in proportion, the merged bytes are the access units cut at type 6, each followed by its slices |
| MuxerTheorems.MergeCutsAtFourteen | SVC-player/merge.cxx:171-176 | the same cut at type 14, for a base layer without type 6 that opens with type 14 |
| MuxerTheorems.AlignmentFails | SVC-player/merge.cxx:123-145 | one access unit, and an enhancement layer whose second unit is not of type 20: that unit is written behind the alignment |
| MuxerTheorems.DemuxUndoesMerge | SVC-player/merge.cxx:56-64 | splitting the merged bytes and selecting by type gives back the base layer, and the second layer if and only if it is empty or has at least one unit per access unit |
| MuxerTheorems.DemuxFails | SVC-player/merge.cxx:77-143 | two access units and one enhancement unit, which is not in the merged file |
| WiphyDump.ChunkTakesNext | Wireless/nl80211.c:2038-2118 | one split-mode message takes exactly the next chunk off what remains of the walk, for any absent bands and channel counts |
| WiphyDump.ChunkCounts | Wireless/nl80211.c:2038-2118 | each chunk lowers the number of chunks left by one, so that the cursor comes back to its start |
| WiphyDump.SendFreqs | Wireless/nl80211.c:2065-2095 | the channel loop succeeds exactly when its attributes fit, sends one channel (split) or the rest (unsplit), and leaves the cursor alone on failure |
| WiphyDump.SendBand | Wireless/nl80211.c:2053-2098 | rate information and channels of one band, and the channel cursor after success and after failure |
| WiphyDump.SendBands | Wireless/nl80211.c:2038-2118 | the band stage: in split mode the next chunk or no change at all; in unsplit mode the whole walk, and the cursor a failure leaves behind |
| WiphyDump.UnsplitIsWalk | Wireless/nl80211.c:2038-2118 | the one-shot loop from a fresh cursor is the plain nested walk; from channel cursor 1 it is the walk without its first item |
| WiphyDump.RetryUnsplit | Wireless/nl80211.c:2562-2568 | a second try after a failed unsplit message delivers the whole walk if and only if the first did not fail inside a channel list; otherwise the first band's rate information is missing |
| WiphyDump.RetryLosesRates | Wireless/nl80211.c:2562-2568 | one band of one channel and room for three attributes: the try fails inside the channel list |
| WiphyDump.OwedItems | Wireless/nl80211.c:1898-2460 | from every reachable cursor, the messages still owed carry exactly the items that remain of the walk |
| WiphyDump.SplitRefinesUnsplit | Wireless/nl80211.c:2038-2118 | the items of a complete split dump are those of the one-shot loop, once each and in order |
| WiphyDump.LeftDecreases | Wireless/nl80211.c:2042-2460 | every message brings a device nearer to the end of its stages |
| WiphyDump.SendWiphy | Wireless/nl80211.c:1898-2460 | a message is sent exactly when it fits; then the cursor moves on, and otherwise nothing that is owed is lost |
| WiphyDump.SendDevice | Wireless/nl80211.c:2541-2573 | messages sent for one device are a prefix of what was owed, the rest is still owed, and at least one is sent |
| WiphyDump.DumpWiphy | Wireless/nl80211.c:2510-2581 | one call of the callback sends a prefix of the debt over all selected devices and leaves the rest; it sends nothing exactly when nothing is owed |
| WiphyDump.PendingIsExpected | Wireless/nl80211.c:2533-2578 | the debt of a fresh dump is, per selected device of the namespace in order, its walk |
| WiphyDump.ExpectedAre | Wireless/nl80211.c:2533-2578 | an item is due exactly if it belongs to a device of the namespace that the filter, if it is not -1, names |
| WiphyDump.WalkVisits | Wireless/nl80211.c:2038-2118 | the walk visits the rate information and the channels of every present band, each exactly once |
| WiphyDump.AllStages | Wireless/nl80211.c:1931-2460 | a device sends its stages 0 to 15 in ascending order, without stage 3, which is the bands and channels, and without stage 6 if power management is not built in |
| WiphyDump.Dump | Wireless/nl80211.c:2510-2581 | wherever buffer-full failures fall, the reader receives the items of each selected device exactly once and in order |
| CqmRssi.CheckThresholds | Wireless/nl80211.c:10886-10892 | accepts exactly the lists of thresholds above the least `s32` and not above 0, each greater than the one before |
| CqmRssi.ComputeRange | Wireless/nl80211.c:10849-10873 | the search loop and 32-bit arithmetic give the range around the last reading |
| CqmRssi.RangeExact | Wireless/nl80211.c:10849-10873 | without underflow, the range reaches from the threshold below the reading less the hysteresis to the one above plus the hysteresis less 1, or to the end of `s32` |
| CqmRssi.RangeExample | Wireless/nl80211.c:10849-10873 | the ranges for thresholds -70 and -50 and hysteresis 2, in numbers |
| CqmRssi.RangesContainReadings | Wireless/nl80211.c:10849-10873 | every range contains the reading it is made for if and only if the lowest threshold minus the hysteresis does not underflow |
| CqmRssi.OutsideMeansCrossed | Wireless/nl80211.c:10849-10873 | a reading outside the range lies in another bucket and differs by more than the hysteresis |
| CqmRssi.Wdev.Update | Wireless/nl80211.c:10813-10874 | the range configured, the reading obtained first when there is none, and no change when the station cannot be read |
| CqmRssi.Wdev.SetCqmRssi | Wireless/nl80211.c:10876-10942 | bad thresholds or a wrong interface change nothing; after that the old configuration is gone, also when lists are not supported; disabling succeeds with the range (0, 0); otherwise the new one is stored with the reading the station gives now, or 0, and the range set for it, unless the station fails |
| CqmRssi.Wdev.Notify | Wireless/nl80211.c:16022-16043 | an event stores its level, or for level 0 the reading the station gives, sets the range for it and reports it, and is one step of the monitor whose runs the theorems are about |
| CqmRssi.RangesMatch | Wireless/nl80211.c:16022-16043 | at every point of every run the driver holds the range for the last reading it was given |
| CqmRssi.EveryRunHasHysteresis | Wireless/nl80211.c:16022-16043 | over every run without underflow, the range contains its reading, and any reading outside it has crossed a threshold and moved by more than the hysteresis |
| ScanRequest.Carve | Wireless/nl80211.c:8007-8048 | for every combination of absent parts the pointers of a scheduled scan cut the allocation into consecutive regions that end with it |
| ScanRequest.CarveOnce | Wireless/nl80211.c:7555-7573 | the same for a single scan |
| ScanRequest.ValidateScanFreqs | Wireless/nl80211.c:7267-7294 | returns the number of frequencies if each has four bytes and none occurs twice, and 0 otherwise |
| ScanRequest.FillListed | Wireless/nl80211.c:7574-7593 | succeeds exactly when all listed channels exist, and writes those not disabled one after the other inside the region |
| ScanRequest.FillAll | Wireless/nl80211.c:7594-7615 | writes every channel of every present band that is not disabled, inside the region |
| ScanRequest.EnabledConcat | Wireless/nl80211.c:7574-7615 | disabled channels are left out one by one, and the order of the others kept |
| ScanRequest.EnabledOne | Wireless/nl80211.c:7588-7592 | a channel is written exactly if it is not disabled |
| ScanRequest.ChannelsConcat | Wireless/nl80211.c:7594-7615 | the channels of the device come band by band |
| ScanRequest.ChannelsOne | Wireless/nl80211.c:7600-7612 | a present band gives all its channels and an absent one none |
| ScanRequest.FillSsids | Wireless/nl80211.c:7643-7654 | succeeds exactly when no SSID is too long, and writes them inside their region |
| ScanRequest.FillPlans | Wireless/nl80211.c:7804-7850 | succeeds exactly when intervals and iterations are within limits and only the last plan is endless; writes the plans inside their region |
| ScanRequest.ParsePlans | Wireless/nl80211.c:7770-7850 | the same with the default plan, whose interval is rounded up to seconds and capped |
| ScanRequest.DefaultPlanRounds | Wireless/nl80211.c:7779-7802 | the default plan is endless, at the least number of seconds that covers the interval, or the limit |
| ScanRequest.AcceptedPlans | Wireless/nl80211.c:7804-7850 | plans are accepted exactly if each interval is from 1 to the limit and each number of iterations too, except for the last plan, which has none; and these numbers are written |
| ScanRequest.Assemble | Wireless/nl80211.c:8007-8113 | four writes at the cumulative offsets of zeroed memory give the concatenation of the parts: none touches another |
| ScanRequest.ReadBack | Wireless/nl80211.c:8007-8048 | reading element i of any part through its pointer gives element i of the message |
| ScanRequest.ParseSchedScan | Wireless/nl80211.c:7890-8242 | which messages make a request, and that its memory is header, channels, SSIDs, information elements, match sets and plans without gap or overlap |
| ScanRequest.LimitsAreExact | Wireless/nl80211.c:7900-8005 | each part of an acceptable message can be exchanged for any other within its limit and for none beyond |
| ScanRequest.TriggerScan | Wireless/nl80211.c:7502-7661 | the same for a single scan, including the test that reads back the only channel when the device may not leave it |
| FileTransfer.StoiUndoesToDecimal | NDN/transmission/FileClient.hpp:56-56 | `stoi` of the announced decimal count is the count, whatever non-digit byte follows the content |
| FileTransfer.DecimalPlaces | NDN/transmission/FileServer.cpp:56-56 | the announcement is hundreds, tens and ones in ASCII |
| FileTransfer.Announcements | NDN/transmission/FileServer.cpp:51-56 | a missing file is announced with 1 segment, an empty one with 0, and sizes up to 8000 and 16000 with 1 and 2 |
| FileTransfer.SegmentCount | NDN/transmission/FileServer.cpp:52-54 | the count of segments is the least that covers the file |
| FileTransfer.FileServer.OnFileInterest | NDN/transmission/FileServer.cpp:45-62 | announces the segment count of the file asked for and shares name and count with the pusher |
| FileTransfer.FileServer.ReadSegment | NDN/transmission/FileServer.cpp:64-87 | the seek and the bounded read into a buffer yield the segment of the file, shorter at its end and empty behind it, and nothing if the file cannot be opened |
| FileTransfer.FileServer.Read | NDN/transmission/FileServer.cpp:76-79 | reading from a position fills the buffer with the bytes there, up to its size or the end of the file, and returns how many |
| FileTransfer.SegmentsMakeFile | NDN/transmission/FileServer.cpp:64-87 | the first n segments put together are the file up to that point, and as many as are announced are the file |
| FileTransfer.FileServer.Push | NDN/transmission/FileServer.cpp:119-148 | pushes every segment of the shared file once and in order |
| FileTransfer.FileClient.OnFile | NDN/transmission/FileClient.hpp:52-85 | allocates room for all segments and expresses one interest for each |
| FileTransfer.FileClient.Store | NDN/transmission/FileClient.hpp:99-103 | the copy loop overwrites exactly the slice of the segment |
| FileTransfer.FileClient.OnSegment | NDN/transmission/FileClient.hpp:87-104 | counts and stores a segment; nothing else changes |
| FileTransfer.FileClient.OnLastSegment | NDN/transmission/FileClient.hpp:106-126 | the same, and remembers the size of the last segment |
| FileTransfer.FileClient.WriteOut | NDN/transmission/FileClient.hpp:42-45 | writes the buffer up to the end of the last segment |
| FileTransfer.StepKeepsInv | NDN/transmission/FileClient.hpp:52-126 | every step of server, pusher, network and client keeps: received slices equal the file's, and the count equals the interests satisfied |
| FileTransfer.EveryStateIsSound | NDN/transmission/FileClient.hpp:52-126 | the same in every state of every run |
| FileTransfer.DeliveriesFit | NDN/transmission/FileClient.hpp:99-103 | in every run whatever is delivered fits the buffer at its place |
| FileTransfer.BufferHoldsFile | NDN/transmission/FileClient.hpp:42-45 | a buffer with the first n slices in place begins with that much of the file |
| FileTransfer.Reassembly | NDN/transmission/FileClient.hpp:42-45 | whatever the order of pushed and answered segments, once no interest is pending the bytes written are the file |
| FileTransfer.CanFinish | NDN/transmission/FileServer.cpp:64-148 | from every sound state there is a run that satisfies all interests |
| Tlv.ToNatUndoesBigEndian | NDN/ndn-cxx/ndn-cxx/encoding/tlv.hpp:390-408 | reading a big-endian number undoes writing it, at every width it fits |
| Tlv.ReadUndoesVarNumber | NDN/ndn-cxx/ndn-cxx/encoding/tlv.hpp:390-408 | reading a variable-size number gives the number and its size, whatever follows |
| Tlv.VarNumberBytes | NDN/ndn-cxx/ndn-cxx/encoding/tlv.hpp:460-485 | the encoding of variable-size numbers, byte by byte |
| Tlv.ReadUndoesInteger | NDN/ndn-cxx/ndn-cxx/encoding/tlv.hpp:487-510 | reading a non-negative integer undoes writing it |
| Tlv.IntegerBytes | NDN/ndn-cxx/ndn-cxx/encoding/tlv.hpp:512-535 | the encoding of non-negative integers, byte by byte |
| Tlv.ReadUndoesEncode | NDN/ndn-cxx/ndn-cxx/encoding/block.cpp:324-350 | reading an element gives the element and its size, whatever follows |
| Tlv.ParseUndoesEncode | NDN/ndn-cxx/ndn-cxx/encoding/block.cpp:324-350 | parsing concatenated elements gives them back |
| Tlv.ParsedAreLegal | NDN/ndn-cxx/ndn-cxx/encoding/block.cpp:324-350 | whatever parses consists of elements that can be encoded again |
| Tlv.Encoder.ReserveFront | NDN/ndn-cxx/ndn-cxx/encoding/encoder.cpp:51-95 | growing the buffer at its front keeps the contents |
| Tlv.Encoder.PrependByteArray | NDN/ndn-cxx/ndn-cxx/encoding/encoder.cpp:117-125 | the bytes come in front of the contents; the buffer is kept if they fit |
| Tlv.Encoder.PrependVarNumber | NDN/ndn-cxx/ndn-cxx/encoding/encoder.cpp:137-162 | the backwards writes yield the forward encoding, and the size returned is its length |
| Tlv.Encoder.PrependInteger | NDN/ndn-cxx/ndn-cxx/encoding/encoder.cpp:191-209 | the same for non-negative integers |
| Tlv.Encoder.PrependIntegerBlock | NDN/ndn-cxx/ndn-cxx/encoding/block-helpers.cpp:33-43 | the same for an element with an integer |
| NdnName.BigEndianOrder | NDN/ndn-cxx/ndn-cxx/name-component.cpp:484-488 | big-endian encodings of one width compare by `memcmp` as their numbers do |
| NdnName.AtFirst | NDN/ndn-cxx/ndn-cxx/name-component.cpp:484-488 | numbers on the wire, of whatever widths and whatever follows, compare by width, then by number, then by what follows |
| NdnName.WireReads | NDN/ndn-cxx/ndn-cxx/encoding/block.cpp:324-350 | a component written in any widths reads as that component, with those widths |
| NdnName.ParseUndoesWires | NDN/ndn-cxx/ndn-cxx/name.cpp:149-157 | a name reads back from its wires, widths included |
| NdnName.ParseUndoesEncodeName | NDN/ndn-cxx/ndn-cxx/name.cpp:115-157 | a name comes back from its own encoding with minimal headers |
| NdnName.ParseNameIsParse | NDN/ndn-cxx/ndn-cxx/name.cpp:149-157 | a name is read exactly where elements are, and its components stand for those elements |
| NdnName.WiresCompareAsWritten | NDN/ndn-cxx/ndn-cxx/name-component.cpp:480-489 | the `memcmp` of two wires is the lexicographic comparison of type width, type, length width, length and value |
| NdnName.FastCompareExact | NDN/ndn-cxx/ndn-cxx/name-component.cpp:480-503 | the `memcmp` agrees with the canonical order if and only if a difference of the type widths, or of the length widths of one type, points the way the components do |
| NdnName.FastCompareIsCanonical | NDN/ndn-cxx/ndn-cxx/name-component.cpp:480-503 | so it does for components with minimal headers |
| NdnName.FastCompareOnLongForms | NDN/ndn-cxx/ndn-cxx/name-component.cpp:484-488 | two forms of one component, with lengths of different widths, read as the same and compare as different |
| NdnName.SecondHalfExact | NDN/ndn-cxx/ndn-cxx/name-component.cpp:491-502 | the comparison without wires, whose differences are cut to `int`, is the canonical order if and only if the types are less than 2 to the 31 apart |
| NdnName.CyclesExactly | NDN/ndn-cxx/ndn-cxx/name-component.cpp:480-503 | no component without a wire makes a cycle with two that have wires if and only if those two compare canonically |
| NdnName.HalvesDoNotMix | NDN/ndn-cxx/ndn-cxx/name-component.cpp:480-503 | a long form, a component without a wire and a short form, each of which compares before the next and the last before the first |
| NameOrder.Compare | NDN/ndn-cxx/ndn-cxx/name.cpp:328-343 | the loop, which compares wires where both names have them and canonically elsewhere, computes the lexicographic comparison by `Component::compare` |
| NameOrder.NamesFlip | NDN/ndn-cxx/ndn-cxx/name.cpp:328-343 | the comparison of names is antisymmetric |
| NameOrder.PrefixComesFirst | NDN/ndn-cxx/ndn-cxx/name.cpp:328-343 | a name comes before every longer name it is a prefix of |
| NameOrder.NamesZero | NDN/ndn-cxx/ndn-cxx/name.cpp:328-343 | names compared as written are equal exactly when they are equal and written alike |
| NameOrder.NamesTransitive | NDN/ndn-cxx/ndn-cxx/name.cpp:328-343 | the comparison of names as written is transitive |
| NameOrder.WiredNames | NDN/ndn-cxx/ndn-cxx/name.cpp:328-343 | names whose components all have wires are compared as written |
| NameOrder.AgreeingNames | NDN/ndn-cxx/ndn-cxx/name.cpp:328-343 | names whose wires, where both have them, compare canonically are compared as if both were written with minimal headers |
| NameOrder.ShortNamesAgree | NDN/ndn-cxx/ndn-cxx/name.cpp:328-343 | names without long forms are such names |
| DelegationLists.PlaceSorted | NDN/ndn-cxx/ndn-cxx/delegation-list.cpp:193-204 | inserting at the upper bound keeps a list in order, among delegations that can be put in order |
| DelegationLists.PlaceMultiset | NDN/ndn-cxx/ndn-cxx/delegation-list.cpp:193-204 | insertion adds one delegation and loses none |
| DelegationLists.LeqTransitive | NDN/ndn-cxx/ndn-cxx/delegation.hpp:51-56 | the order by preference and name is transitive among delegations that all have wires, or whose wires compare canonically |
| DelegationLists.LeqAntisymmetric | NDN/ndn-cxx/ndn-cxx/delegation.hpp:51-56 | delegations with wires that are each not after the other are equal and written alike |
| DelegationLists.SortedIsUnique | NDN/ndn-cxx/ndn-cxx/delegation-list.cpp:153-167 | two ordered lists of delegations with wires that hold the same are equal |
| DelegationLists.SortingSorts | NDN/ndn-cxx/ndn-cxx/delegation-list.cpp:153-167 | among delegations that can be put in order, sorting yields an ordered permutation, and the list itself exactly when it was in order |
| DelegationLists.SortedAscends | NDN/ndn-cxx/ndn-cxx/delegation.hpp:51-56 | a list is in order exactly if preferences ascend, and names among equal preferences |
| DelegationLists.SortAscends | NDN/ndn-cxx/ndn-cxx/delegation-list.cpp:153-167 | a list that was sorted holds what it held, in ascending order |
| DelegationLists.ErasureConserves | NDN/ndn-cxx/ndn-cxx/delegation-list.cpp:206-221 | survivors and erased add up; every delegation that does not match keeps its multiplicity and no other remains |
| DelegationLists.EraseLaw | NDN/ndn-cxx/ndn-cxx/delegation-list.cpp:206-221 | what is erased is every delegation of an equal name and, if one is given, an equal preference, and nothing else |
| DelegationLists.EraseInOrder | NDN/ndn-cxx/ndn-cxx/delegation-list.cpp:206-221 | erasing works part by part, so the survivors keep their order |
| DelegationLists.InsertLaw | NDN/ndn-cxx/ndn-cxx/delegation-list.cpp:169-191 | what each policy for a name already there adds and takes away |
| DelegationLists.UnsortedInsert | NDN/ndn-cxx/ndn-cxx/delegation-list.cpp:193-198 | an unsorted list takes a delegation at its end |
| DelegationLists.SurvivorsStaySorted | NDN/ndn-cxx/ndn-cxx/delegation-list.cpp:206-221 | erasing keeps the order |
| DelegationLists.DecodeUndoesEncode | NDN/ndn-cxx/ndn-cxx/delegation-list.cpp:84-151 | decoding the element of a delegation gives an equal delegation, with minimal headers |
| DelegationLists.ListGrammar | NDN/ndn-cxx/ndn-cxx/delegation-list.cpp:66-92 | the grammar of the Link section of the packet format, with its type numbers |
| DelegationLists.DelegationDecodes | NDN/ndn-cxx/ndn-cxx/delegation-list.cpp:113-145 | which elements decode as a delegation, and to which preference and name |
| DelegationLists.DecodeAccepts | NDN/ndn-cxx/ndn-cxx/delegation-list.cpp:104-151 | a block decodes without error exactly if it is a Content or ForwardingHint block of at least one delegation and nothing else |
| DelegationLists.DecodeStops | NDN/ndn-cxx/ndn-cxx/delegation-list.cpp:113-145 | a decode that meets a bad element has taken the delegations in front of it and only those |
| DelegationLists.DecodeErrors | NDN/ndn-cxx/ndn-cxx/delegation-list.cpp:104-151 | the error for each kind of bad block, and what it leaves of the list |
| DelegationLists.ReceivedDecodes | NDN/ndn-cxx/ndn-cxx/delegation-list.cpp:104-151 | a delegation written by others, with components in any widths, decodes to itself with those widths |
| DelegationLists.DecodeEncoded | NDN/ndn-cxx/ndn-cxx/delegation-list.cpp:84-151 | decoding an encoded list gives its delegations with minimal headers, sorted if that is wanted, whatever the object held before |
| DelegationLists.RoundTrip | NDN/ndn-cxx/ndn-cxx/delegation-list.cpp:84-151 | decoding an encoded non-empty list gives equal delegations, and in the same order if and only if order is not wanted or the list is in order also with minimal headers |
| DelegationLists.MinimalRoundTrip | NDN/ndn-cxx/ndn-cxx/delegation-list.cpp:84-151 | a list with minimal headers comes back as it is if and only if it is in order or order is not wanted |
| DelegationLists.LongFormsReorder | NDN/ndn-cxx/ndn-cxx/delegation-list.cpp:84-151 | a list in order as received, with a long form behind a longer component, is not in order with minimal headers |
| DelegationLists.SortAfterDecode | NDN/ndn-cxx/ndn-cxx/delegation-list.cpp:104-167 | for every block, decoding unsorted and then sorting equals decoding sorted, errors included |
| DelegationLists.SortedDecodeForgetsOrder | NDN/ndn-cxx/ndn-cxx/delegation-list.cpp:104-151 | encodings of lists that are permutations of each other, up to headers, decode to the same sorted list |
| DelegationLists.EveryRunInOrder | NDN/ndn-cxx/ndn-cxx/delegation-list.cpp:104-221 | after every sequence of operations, failed decodes included, `m_isSorted` implies ordered contents, if the delegations that occur all have wires or have wires that compare canonically |
| DelegationLists.RunsAscend | NDN/ndn-cxx/ndn-cxx/delegation-list.cpp:104-221 | after such a run a list marked as sorted has ascending preferences, and ascending names among equal ones |
| DelegationLists.SortedDecodeAscends | NDN/ndn-cxx/ndn-cxx/delegation-list.cpp:104-151 | so has every list decoded with sorting, from any block |
| DelegationLists.WhenInOrder | NDN/ndn-cxx/ndn-cxx/delegation-list.cpp:104-221 | that is so when every component has a wire, and when no header is longer than necessary |
| DelegationLists.DecodedAreWired | NDN/ndn-cxx/ndn-cxx/delegation-list.cpp:104-151 | every decoded component has a wire |
| DelegationLists.RunLosesOrder | NDN/ndn-cxx/ndn-cxx/delegation-list.cpp:104-204 | two delegations are decoded, one in long form, and one without a wire is inserted: the list is marked as sorted and is not in order |
| DelegationLists.EveryRunDistinct | NDN/ndn-cxx/ndn-cxx/delegation-list.cpp:169-191 | no sequence of replacing and skipping insertions, erasures and sorts makes a name occur twice |
| DelegationListObject.PrependDelegations | NDN/ndn-cxx/ndn-cxx/delegation-list.cpp:84-92 | the loop from the last delegation to the first yields the forward encoding |
| DelegationListObject.DelegationList.InsertImpl | NDN/ndn-cxx/ndn-cxx/delegation-list.cpp:193-204 | inserts at the upper bound when sorted and at the end otherwise |
| DelegationListObject.DelegationList.EraseImpl | NDN/ndn-cxx/ndn-cxx/delegation-list.cpp:206-221 | the erasing loop leaves the survivors in order and returns how many it erased |
| DelegationListObject.DelegationList.Insert | NDN/ndn-cxx/ndn-cxx/delegation-list.cpp:169-191 | the three policies for a name already in the list |
| DelegationListObject.DelegationList.SortInPlace | NDN/ndn-cxx/ndn-cxx/delegation-list.cpp:153-167 | `sort` equals sorting the value, and does nothing to a sorted list |
| DelegationListObject.DelegationList.WireEncode | NDN/ndn-cxx/ndn-cxx/delegation-list.cpp:61-96 | the errors for a wrong type and an empty list, and otherwise the forward grammar in front of the encoder's contents |
| DelegationListObject.DelegationList.EstimateSize | NDN/ndn-cxx/ndn-cxx/delegation-list.cpp:61-96 | the estimator pass predicts the exact length, with the same errors |
| DelegationListObject.DelegationList.EncodeExactly | NDN/ndn-cxx/ndn-cxx/link.cpp:53-57 | a buffer of the estimated size is filled exactly |
| DelegationListObject.DelegationList.WireDecode | NDN/ndn-cxx/ndn-cxx/delegation-list.cpp:104-151 | list and error after decoding, also the state an error leaves |
| PacketCodec.MetaRoundTrip | NDN/ndn-cxx/ndn-cxx/meta-info.cpp:123-223 | MetaInfo decodes to itself if and only if no application element can be taken for an absent field |
| PacketCodec.SigRoundTrip | NDN/ndn-cxx/ndn-cxx/signature-info.cpp:51-177 | SignatureInfo decodes to itself if and only if every custom element is one that decoding keeps |
| PacketCodec.CriticalCustomElement | NDN/ndn-cxx/ndn-cxx/signature-info.cpp:319-332 | a custom element of type 0x81, which `addCustomTlv` takes, makes a SignatureInfo that does not decode |
| PacketCodec.FieldsDecode | NDN/ndn-cxx/ndn-cxx/data.cpp:123-203 | the ordered scan over the fields of an encoded packet gives the name with minimal headers, content and signature value as they were, and MetaInfo and SignatureInfo as they decode |
| PacketCodec.TypeZeroEndsParse | NDN/ndn-cxx/ndn-cxx/data.cpp:107-121 | what is written in place of a missing signature value makes the packet unparsable |
| PacketCodec.DecodeEncodedPacket | NDN/ndn-cxx/ndn-cxx/data.cpp:45-203 | the same from the bytes of the packet, and nothing if the signature value is missing |
| PacketCodec.PacketRoundTrip | NDN/ndn-cxx/ndn-cxx/data.cpp:45-203 | a packet decodes to an equal one if and only if it has a signature value, unambiguous MetaInfo and no custom element that decoding refuses |
| PacketCodec.PacketGrammar | NDN/ndn-cxx/ndn-cxx/data.cpp:45-86 | the grammar of the Data section of the packet format, with its type numbers and order |
| PacketCodec.MetaGrammar | NDN/ndn-cxx/ndn-cxx/meta-info.cpp:123-160 | the fields of MetaInfo, which are left out at their default, with their type numbers |
| PacketCodec.SigGrammar | NDN/ndn-cxx/ndn-cxx/signature-info.cpp:51-92 | the fields of SignatureInfo with their type numbers |
| PacketCodec.OtherElements | NDN/ndn-cxx/ndn-cxx/signature-info.cpp:146-168 | which other elements SignatureInfo may hold, by type number |
| PacketCodec.UnknownElement | NDN/ndn-cxx/ndn-cxx/data.cpp:145-203 | an unknown element behind the name is ignored if its type is even and above 31, and makes the packet refused otherwise |
| PacketCodec.FieldsInOrder | NDN/ndn-cxx/ndn-cxx/data.cpp:145-203 | a field that comes after itself or a later one makes the packet refused |
| PacketCodec.WithoutMetaInfo | NDN/ndn-cxx/ndn-cxx/data.cpp:145-203 | a packet without MetaInfo has content type 0, no freshness period and no final block |
| PacketCodec.FieldLimits | NDN/ndn-cxx/ndn-cxx/meta-info.cpp:162-223 | which numbers are taken as a content type and a signature type, and which components as a final block |
| DataObject.CallKeepsCoherent | NDN/ndn-cxx/ndn-cxx/data.cpp:107-370 | every call that does not throw keeps the cached wire and full name in agreement with the fields |
| DataObject.EveryRunCoherent | NDN/ndn-cxx/ndn-cxx/data.cpp:107-370 | after every run of calls that do not throw, a present wire decodes to the fields and a present full name is the name and the digest of that wire |
| DataObject.AmbiguousMetaIsReachable | NDN/ndn-cxx/ndn-cxx/data.cpp:107-121 | a packet received with two FinalBlockId elements, whose first is then unset, is encoded as a packet that has it again |
| DataObject.Data.ResetWire | NDN/ndn-cxx/ndn-cxx/data.cpp:219-224 | both caches are dropped and nothing else changes |
| DataObject.Data.SetName | NDN/ndn-cxx/ndn-cxx/data.cpp:226-234 | afterwards the name is the one given and the other fields are as they were; the caches survive exactly when the name is the one already set |
| DataObject.Data.SetMetaInfo | NDN/ndn-cxx/ndn-cxx/data.cpp:236-242 | the field reads back, the others are as they were, and the caches are dropped |
| DataObject.Data.SetContent | NDN/ndn-cxx/ndn-cxx/data.cpp:262-272 | the content reads back, the other fields are as they were, and the caches are dropped |
| DataObject.Data.UnsetContent | NDN/ndn-cxx/ndn-cxx/data.cpp:286-292 | the content is gone, the other fields are as they were, and the caches are dropped |
| DataObject.Data.SetSignatureInfo | NDN/ndn-cxx/ndn-cxx/data.cpp:309-315 | the field reads back, the others are as they were, and the caches are dropped |
| DataObject.Data.SetSignatureValue | NDN/ndn-cxx/ndn-cxx/data.cpp:317-327 | the field reads back, the others are as they were, and the caches are dropped |
| DataObject.Data.SetContentType | NDN/ndn-cxx/ndn-cxx/data.cpp:342-350 | the value reads back and nothing else of the packet changes; the caches survive exactly when it is the one already set |
| DataObject.Data.SetFreshnessPeriod | NDN/ndn-cxx/ndn-cxx/data.cpp:352-360 | a new negative value is refused; otherwise it reads back and nothing else of the packet changes; the caches survive exactly when it is the one already set |
| DataObject.Data.SetFinalBlock | NDN/ndn-cxx/ndn-cxx/data.cpp:362-370 | the value reads back and nothing else of the packet changes; the caches survive exactly when it is the one already set |
| DataObject.Data.GetFullName | NDN/ndn-cxx/ndn-cxx/data.cpp:205-217 | the full name is the name and one more component, of type 1, with the digest of the wire; without a wire there is none |
| DataObject.Data.WireDecode | NDN/ndn-cxx/ndn-cxx/data.cpp:123-203 | succeeds exactly when the wire decodes, and then holds what it decodes to and the wire; a throw after the type check leaves a cached wire that does not match |
| DataObject.Data.ScanElements | NDN/ndn-cxx/ndn-cxx/data.cpp:145-203 | the loop with `lastElement` takes known fields in order, ignores what may be ignored and refuses the rest |
| DataObject.Data.EncodeBackwards | NDN/ndn-cxx/ndn-cxx/data.cpp:45-86 | the backwards encoder yields the forward grammar of the packet |
| DataObject.Data.WireEncode | NDN/ndn-cxx/ndn-cxx/data.cpp:107-121 | when encoding throws, which bytes and fields it leaves, when these are an equal packet, and when the caches agree with the fields afterwards |
| LinkObject.EncodedAgrees | NDN/ndn-cxx/ndn-cxx/link.cpp:47-64 | the content written for a list decodes to equal delegations, in the same order unless the list is in order only as received |
| LinkObject.DecodeAgrees | NDN/ndn-cxx/ndn-cxx/link.cpp:66-76 | whatever content decodes agrees with the list decoded from it |
| LinkObject.Link.EncodeContent | NDN/ndn-cxx/ndn-cxx/link.cpp:47-64 | the content type becomes 1 and the content the encoding of the list; they agree again, and the caches are dropped |
| LinkObject.Link.SetDelegationList | NDN/ndn-cxx/ndn-cxx/link.cpp:78-83 | the list is replaced and the content decodes to it |
| LinkObject.Link.AddDelegation | NDN/ndn-cxx/ndn-cxx/link.cpp:85-90 | replaces delegations of the name, and the content decodes to the list |
| LinkObject.Link.RemoveDelegation | NDN/ndn-cxx/ndn-cxx/link.cpp:92-100 | erases the name, and the content decodes to the list; an absent name changes nothing in the packet |
| LinkObject.Link.WireDecode | NDN/ndn-cxx/ndn-cxx/link.cpp:66-76 | succeeds exactly for a Link packet with a list, and then holds the packet and the list decoded from its content, which agree |
| Cidr.ByteInterval | NDN/NFD/core/network.cpp:126-175 | a byte between the masked and the filled byte is a byte with the same masked bits |
| Cidr.ByteBits | NDN/NFD/core/network.cpp:126-175 | equal masked bytes are bytes whose first bits agree |
| Cidr.IntervalIsPrefix | NDN/NFD/core/network.hpp:41-45 | the lexicographic interval test over all bytes is equality of the masked bytes |
| Cidr.SameBytesIsSamePrefix | NDN/NFD/core/network.cpp:126-175 | equality of the masked bytes is agreement on the first bits of the address |
| Cidr.MembershipIsPrefix | NDN/NFD/core/network.hpp:41-45 | an address is in a block if and only if it is of the same family, its first bits agree, and it has no scope id or is not the highest address |
| Cidr.BlocksNest | NDN/NFD/core/network.hpp:41-45 | any two blocks are disjoint, or the one with the longer prefix lies inside the other, scope ids included |
| Cidr.BuildMask | NDN/NFD/core/network.cpp:126-139 | the bit loop makes the mask of the prefix, byte by byte |
| Cidr.MakeBlock | NDN/NFD/core/network.cpp:126-175 | the loops compute the lowest and highest address of the block |
| Cidr.ReadNetwork | NDN/NFD/core/network.cpp:84-179 | the loops and checks compute the network a string stands for, or fail |
| Cidr.ReadingOfText | NDN/NFD/core/network.cpp:84-179 | an address, a slash and the decimal digits of a number up to 32 or 128 read as the block of that address and prefix length, and an address alone as itself |
| Cidr.ReadingFails | NDN/NFD/core/network.cpp:107-122 | nothing, or anything but digits, behind the slash makes no network |
| Cidr.DecimalUndoesDigits | NDN/NFD/core/network.cpp:117-117 | reading the decimal digits of a number gives the number |
| Cidr.DecimalPlaces | NDN/NFD/core/network.cpp:117-117 | up to three digits are hundreds, tens and ones, leading zeros included |
| TxReport.YoungMeansUnderASecond | Wireless/base.c:1976-1978 | the wrapping comparison of times keeps exactly the frames sent less than a second ago |
| TxReport.Queue.GetTxReportSn | Wireless/base.c:1633-1654 | the frame gets the next counter, whose lowest six bits are bits 7 to 2 of its number; and what is remembered of it |
| TxReport.Queue.AckQueue | Wireless/base.c:1589-1595 | a numbered frame, in whatever order they come, joins the tail |
| TxReport.Queue.Handle | Wireless/base.c:1668-1701 | the first frame with the number, if any, leaves the queue with the status of the report |
| TxReport.Queue.FreeEntries | Wireless/base.c:1965-1982 | the walk that unlinks as it goes keeps the young frames in order and reports the others as not acknowledged |
| TxReport.DrainEmpties | Wireless/base.c:1965-1982 | without the timeout check nothing stays |
| TxReport.GivenUpAre | Wireless/base.c:1965-1982 | the frames given up are exactly those the walk does not keep, reported as not acknowledged |
| TxReport.FreeInOrder | Wireless/base.c:1965-1982 | frames kept and frames given up are both in the order of the queue |
| TxReport.EveryRunConserves | Wireless/base.c:1589-1701 | over every run, frames numbered but not queued, queued and reported are together exactly the frames that got a number |
| TxReport.ExactlyOnce | Wireless/base.c:1589-1701 | every numbered frame is on its way to the queue, in it or reported, once in all, and after a drain has been reported once unless it is still on its way |
| TxReport.ReportCompletes | Wireless/base.c:1644-1697 | after every run, a report completes the waiting frame it is about if and only if no frame in front of it has the same number modulo 64 |
| TxReport.EveryRunDistinct | Wireless/base.c:1589-1701 | in every run, in whatever order frames join, those waiting have different counters |
| TxReport.ReportsAreExact | Wireless/base.c:1644-1697 | after every run in which the counters of the waiting frames span fewer than 64, in whatever order they joined, a report completes its frame and changes nothing else |
| TxReport.LateReportsAreIgnored | Wireless/base.c:1688-1697 | a report about a frame that does not wait any more does nothing while the waiting frames are fewer than 64 away from it |
| TxReport.ReportsCanBeStolen | Wireless/base.c:1688-1697 | after a run of 65 sends the report about the last frame completes the first |
| TxReport.TimeoutIsASecond | Wireless/base.c:1965-1982 | the timeout pass keeps a queued frame if and only if it was sent less than a second ago |
| ScanList.MsecsModulo | Wireless/base.c:1994-1994 | the 64-bit difference converted to 32-bit milliseconds is the true age modulo 2 to the 32 |
| ScanList.FreshMeansRecent | Wireless/base.c:1994-1994 | exactly when the test of the expiry loop says what it means |
| ScanList.ThreeMinutes | Wireless/base.c:1994-1994 | an entry is kept as long as it was seen less than 180000 milliseconds ago |
| ScanList.List.Collect | Wireless/base.c:2011-2062 | a beacon seen while scanning moves its entry to the tail with the new age; the counter stays the length, also when memory runs out |
| ScanList.List.Expire | Wireless/base.c:1984-2009 | the walk that unlinks as it goes leaves the fresh entries in order, and both counters equal the length |
| ScanList.List.FreeEntries | Wireless/base.c:1953-1963 | empties the list and the counter |
| ScanList.CollectRefines | Wireless/base.c:2011-2062 | on the map from BSSID to last sighting, collecting is an update |
| ScanList.ExpireRefines | Wireless/base.c:1984-2009 | expiry restricts the map to the last 180 seconds if and only if no age comes back under the limit in 32 bits |
| ScanList.ExpiryFails | Wireless/base.c:1994-1994 | an entry that expiry keeps although it was not seen for 2 to the 32 milliseconds |
| ScanList.ExpireIsPrefix | Wireless/base.c:1984-2009 | expiry removes exactly a prefix of the list |
| ScanList.EveryRunRefines | Wireless/base.c:1953-2063 | over every run the list has no duplicates, is in the order of age, and is the map of last sightings |

## Left out

- Muxer.Mux: the share of each layer is computed once per call and not in every pass, since its operands do not change; the first layer's count must not be 0, because the source divides by it, and enhancement units must not be empty, because the source reads their first byte.
- AnnexB.CountNalus: requires that a unit follows the last start code, since the source reads its header byte.
- WiphyDump.SendWiphy: attributes of stages other than the band stage are one item each; stage 13 with its own loop over interface types is not modelled, and devices are those without it.
- WiphyDump.Dump: the parsing of the request (lines 2462 to 2508) gives the filter as a parameter; each chunk must fit an empty buffer.
- CqmRssi.Wdev.SetCqmRssi: what the driver does with a single threshold, and a failed allocation, are not modelled.
- CqmRssi.Wdev.Update: a driver that refuses the range is not modelled.
- FileTransfer.FileServer.Push: a file interest that changes the shared name and count while the pusher runs is not part of this method; in the protocol of `Step` packets of several files mix freely.
- MuxerTheorems.LayersInterleave: between passes; `PrefixesInterleave` extends it to every point.
- ScanRequest.ParseSchedScan: match sets are counted but not filled, so their region stays zero in the model; alignment of the regions, and the checks of flags, delay and relative RSSI that come after the fill loops, are not modelled.
- ScanRequest.TriggerScan: rates, dwell time, flags and the BSSID, which live in the header, are not modelled.
- FileTransfer.Reassembly: does not model the overflow of `int` for files of 2 to the 31 bytes or more, a wanted file that is missing or empty, a second `getFile` on one client, timeouts and Nacks; each interest is satisfied at most once.
- PacketCodec.SigRoundTrip: the inside of a key locator is an uninterpreted element.
- NameOrder.Compare: the comparison without wires is the canonical one; the source's differs for types 2 to the 31 or more apart (`SecondHalfExact`), and lengths that far apart are not modelled.
- DelegationLists.SortAfterDecode: a block is a value; the source keeps the sub-elements read before a malformed one in the block object, so that decoding the same object again can succeed.
- PacketCodec.PacketRoundTrip: elements kept as blocks (content, signature value, application and custom elements) are written anew with minimal headers, where the source copies the wire they came with; they decode to the same.
- Data::setSignature, which sets both signature parts at once.
- DataObject.Data.WireEncode: the overload that takes an encoder and a signature value (lines 94 to 105) is not modelled.
- ScanList.List.Expire: clock rates that do not divide 1000, for which the kernel converts jiffies by a rounded division, are not modelled.
- DataObject.Data.SetContent: the overloads that take a block or a shared buffer keep the block's own encoding and are not modelled separately.
- DelegationListObject.DelegationList.WireEncode: sizes that reach 2 to the 64 are excluded, as the source's `size_t` cannot hold them.
- LinkObject.Link.AddDelegation: the constructor from an initializer list is not modelled; it is a sequence of such insertions.
- Cidr.ReadNetwork: how an address is written is a parameter.
- TxReport.Queue.Handle: the reading of number and status from the report's bytes, and the descriptor the number is written to, are not modelled.
- Data::extractSignedRanges, equality and printing of packets and lists: they would add only easy members.
- Interface dumps (`nl80211_dump_interface`), whose cursor is carried into later devices.
- Match-set filling and the bitrate mask parser of `Wireless/nl80211.c`.
- Rate tables, bit-rate selection and aggregation switches of `Wireless/base.c`.
- The Python muxers, the player and the decoder: the first repeat `merge.cxx`, the others are foreign code.
- Locks, RCU, logging, signing, faces and sockets.
