# Verified models of the algorithmic cores of qiperf

qiperf measures network throughput between hosts and, in its antenna plug-in, groups clients for
steerable antennas. Behind its user interface sit a few self-contained algorithms. This project
models them in Dafny, in the form the C++ has (loops over arrays, objects whose fields are updated
in place), and proves what they are for. `dafny verify dfyconfig.toml` checks everything.

| module | what it models |
|---|---|
| `Geometry`, `FiniteSets`, `Options`, `Ordering`, `Text` | points and squared distances, set sizes, optional values, the library sort, Qt's string operations |
| `Dbscan` | DBSCAN over a mutable label array, and what its labels mean |
| `EpsChooser` | k-distances, elbow detection and the wiring that picks `eps` |
| `KMeans`, `KMeansDescent` | Lloyd's k-means over mutable arrays; descent, convergence, conservation |
| `FrameHeader`, `FileSaveSocket`, `DrainOutcome`, `Segmentation` | the receiver of framed files, what stops its loop, and when TCP segmentation matters |
| `Checksum`, `IcmpPacket` | three Internet checksum routines, packet creation and verification |
| `IperfParser`, `IperfFileWorker` | aggregation of iperf3 records into batches, and the per-stream columns of an offline replay |
| `QDataStream`, `QipConfig`, `QipRoundTrip` | the `.qip` container, its writer, its reader and their round trip |
| `BeamTable` | nearest-ring selection, the same in both beam tables |
| `MetricsStore` | two indexes over one log of records |

Each imperative method is proved equal to a function of its inputs or its old state, or proved to
have the property itself; the lemmas then say what those functions mean. Doubles are modelled as
reals. Distances are compared squared, which `EpsChooser.NearIsLengthAtMostEps` justifies for a
bound and `EpsChooser.SquaresOrderAsLengths` for two distances (k-means, the rings); the square root, the text-to-number conversions of the iperf reports, zlib, the JSON log parser and the
file system's willingness to open a file are parameters.

## Results that qualify the code

- DBSCAN meets its definition for every `eps` and `minPts` except a negative `eps` with a
  non-positive `minPts`; the lemmas state the exact condition. A border point near several clusters
  ends with the last one whose first core is within `eps` of it, because seeding relabels without
  asking (`JIO/dlgaas.cpp:3258`), and otherwise with the first that touches it.
- The automatic choice of `eps` reads the last entry of an empty list (`JIO/dlgaas.cpp:3319`) exactly
  when all points are equal; otherwise it always finds a cluster.
- k-means always settles within k^n passes. `maxIter` passes need not be enough: one pass is not for
  the points 0, 1 and 10 on a line. The labels are final exactly when one more pass repeats them.
- If a file cannot be opened, the receive loop returns early (`qiperfc/src/filesaveSocket.cpp:52`)
  and a frame already in the buffer waits for the next segment. That is the only way in which
  segmentation can matter, and it matters exactly when an announced name does not open, a full line
  follows the first such header, and the last segment does not reach back into that header.
- A header counts only with exactly two colons (`qiperfc/src/filesaveSocket.cpp:41`), so a file whose
  name has a colon, as the log of a server bound to an IPv6 address has
  (`qiperfd/src/iperfworker.cpp:303`), is never opened by the receiver.
- Between files, the loop spins exactly when all announced names open and one is announced with a
  negative size and at least one byte after it (`qiperfc/src/filesaveSocket.cpp:62-71`); the line
  `FILE:a:-1` and one more byte is such a stream.
- The 32-bit checksum routines are right up to 65537 words and for no larger size. On a big-endian
  host an odd length is summed without RFC 1071's pad, unless the last byte is zero. The 64-bit
  routine reads two bytes past the end of an odd size (`src/icmpwrapper.cpp:48-53`), which is harmless
  only if both are zero, or on a little-endian host both 0xFF behind a non-zero sum.
- The receiver's zero-and-recompute test is RFC 1071's test except that it refuses a field of
  0xFFFF where 0 was computed.
- The index of a line is a number or empty (`src/iperfwrapper.cpp:639-642`), so the test for a `[SUM]`
  line at `src/iperfwrapper.cpp:542` never succeeds; after an interval of two or more streams such a
  line is left pending. With a non-positive `parallel` setting every record is lost.
- The loss rate is an integer division (`qiperfc/src/iperffileworker.cpp:90`), so a partial loss shows
  as zero, and the direction test is case sensitive (`qiperfc/src/iperffileworker.cpp:120`), so both
  of the tool's tags plot as received: only a tag with a capital "TX" in it does not. The model
  follows the code.
- `saveToFile` always writes version 2 in the header (`qiperfc/src/qipconfig.cpp:97`) whatever the
  object's version; only objects of version 2 or later write files that load, and `init` makes
  every object so. Record files that share a base name overwrite one another when loaded. Saving
  onto one of the record files stores the flushed head of the new container in its place.

## Model

| member | source | states |
|---|---|---|
| Dbscan.RegionQuery | JIO/dlgaas.cpp:3240-3248 | returns each point within `eps` once, and nothing else |
| Dbscan.Absorb | JIO/dlgaas.cpp:3266-3274 | claims and queues exactly the unclaimed neighbours, queue without duplicates; unclaimed points plus queue length stay the same |
| Dbscan.ClaimAll | JIO/dlgaas.cpp:3258-3259 | every seed takes the new label whatever it had, no other point changes |
| Dbscan.DrainPass | JIO/dlgaas.cpp:3263-3275 | one pass keeps the growth invariant and lowers unclaimed points plus queue length by exactly one |
| Dbscan.Drain | JIO/dlgaas.cpp:3263-3275 | the work list terminates with every core of the new cluster settled |
| Dbscan.ExpandCluster | JIO/dlgaas.cpp:3250-3278 | the exact new labels: neighbours of the start always, points reached through further cores only if unclaimed; a non-core start becomes noise |
| Dbscan.DbScan | JIO/dlgaas.cpp:3280-3298 | the labels are those of the leaders' clusters grown in index order, which the lemmas below characterise |
| Dbscan.CoresShareLabelIffConnected | JIO/dlgaas.cpp:3250-3298 | two cores share a label exactly when a chain of cores joins them; with the exact condition on `eps` and `minPts` for this to hold |
| Dbscan.ClustersNumberedBySmallestCore | JIO/dlgaas.cpp:3286-3292 | one cluster has a smaller number than another exactly when its smallest core has a smaller index |
| Dbscan.EveryPointClassified | JIO/dlgaas.cpp:3286-3292 | no point stays unclassified, with the exact exception |
| Dbscan.NoiseIsExact | JIO/dlgaas.cpp:3253-3256 | noise is exactly the points that are not core and have no core within `eps` |
| Dbscan.BorderJoinsANearCore | JIO/dlgaas.cpp:3258-3274 | a labelled point carries the label of some core within `eps` |
| Dbscan.OwnerIsExact | JIO/dlgaas.cpp:3258-3274 | which touching cluster keeps a border point: the last one whose leader is near it, else the first that touches it |
| Dbscan.LabelIsOwner | JIO/dlgaas.cpp:3258-3298 | the label of any point is the position of that owner among the clusters' smallest cores |
| Dbscan.ExpandingKeepsOldCores | JIO/dlgaas.cpp:3258-3259 | growing a cluster never relabels a core of an older one |
| Dbscan.GrownIsExpanded | JIO/dlgaas.cpp:3263-3277 | a drained work list has reached every core joined to the start by a chain |
| Dbscan.MayExpand | JIO/dlgaas.cpp:3287-3290 | an unclassified core met by the scan is the smallest of its cluster, and none of its cluster is claimed |
| EpsChooser.NearIsLengthAtMostEps | JIO/dlgaas.cpp:3235-3245 | the squared comparison is the comparison of lengths, for any `eps` |
| EpsChooser.SquaresOrderAsLengths | JIO/dlgaas.cpp:3199-3206 | of two distances one is smaller, or both are equal, exactly when this holds of their squares |
| EpsChooser.KDistance | JIO/dlgaas.cpp:3305-3320 | the k-th smallest distance to an unequal point, or the largest if there are fewer; no result exactly when there is none, where the source reads the last entry of an empty list |
| EpsChooser.ListsFilledIffDistinct | JIO/dlgaas.cpp:3308-3320 | every point has a distance to take exactly when two points differ |
| EpsChooser.ComputeKDistances | JIO/dlgaas.cpp:3300-3324 | the sorted list of the points' k-distances, exactly when there are no points or two that differ |
| EpsChooser.DeviationIsDistanceToLine | JIO/dlgaas.cpp:3341-3346 | the elbow criterion is the distance to the line through the end points: no point of the line is nearer and the perpendicular's foot is that near |
| EpsChooser.DetectElbow | JIO/dlgaas.cpp:3326-3355 | the value at the first interior index farthest from the line, the last value for fewer than three, none for an empty list |
| EpsChooser.ChooseEps | JIO/dlgaas.cpp:1850-1856 | `minPts` by the number of points; `eps` is the elbow of the sorted curve of all points' k-distances for it, and there is one exactly when two points differ |
| EpsChooser.EpsIsDetermined | JIO/dlgaas.cpp:3300-3355 | the points alone determine that elbow |
| EpsChooser.AutomaticEpsFindsACluster | JIO/dlgaas.cpp:1850-1858 | with `eps` a k-distance and `minPts` = k a cluster is found exactly when there are at least k points |
| EpsChooser.ClusterAutomatically | JIO/dlgaas.cpp:1850-1858 | the whole branch: DBSCAN with `eps` at that elbow and at least one cluster, exactly when two points differ |
| KMeans.NearestCluster | JIO/dlgaas.cpp:3199-3207 | the first of the nearest centroids |
| KMeans.AssignAll | JIO/dlgaas.cpp:3198-3209 | every label becomes the first nearest centroid of its point |
| KMeans.UpdateAll | JIO/dlgaas.cpp:3211-3221 | every non-empty cluster's centroid becomes its mean, empty clusters keep theirs |
| KMeans.KMeansCluster | JIO/dlgaas.cpp:3185-3225 | the labels at the end of the run that starts at the first k points with all labels 0 and takes `maxIter` steps, each to the first nearest centroids and then the means |
| KMeans.FirstPassLabels | JIO/dlgaas.cpp:3191-3209 | the first pass compares every point with the first k points |
| KMeans.OneLloyd | JIO/dlgaas.cpp:3185-3225 | there is only one such run |
| KMeansDescent.AssignIsOptimal | JIO/dlgaas.cpp:3198-3209 | no labelling is cheaper for the centroids, and an equally cheap different one has a larger label sum |
| KMeansDescent.UpdateIsOptimal | JIO/dlgaas.cpp:3211-3221 | no centroids are cheaper for the labels, empty clusters included |
| KMeansDescent.PassNeverWorse | JIO/dlgaas.cpp:3196-3222 | a pass never raises the total squared distance |
| KMeansDescent.RunNeverWorse | JIO/dlgaas.cpp:3196-3222 | nor does any number of passes |
| KMeansDescent.PassProgresses | JIO/dlgaas.cpp:3196-3222 | a pass repeats the labels or strictly lowers cost, then label sum |
| KMeansDescent.RepeatedLabelsAreFinal | JIO/dlgaas.cpp:3196-3222 | after a repeated labelling all further passes change nothing |
| KMeansDescent.KMeansSettles | JIO/dlgaas.cpp:3196-3222 | after k^n passes the state is final, from any start |
| KMeansDescent.FinalIffRepeated | JIO/dlgaas.cpp:3196-3222 | the labels after any number of passes are final exactly when one more pass repeats them; before the first pass, when two more do |
| KMeansDescent.OnePassNotEnough | JIO/dlgaas.cpp:3196-3222 | three points whose labels change in the second pass |
| KMeansDescent.PassConserves | JIO/dlgaas.cpp:3211-3221 | counts add up to n and count-weighted means to the sum of the points |
| KMeansDescent.CentroidsStayInBox | JIO/dlgaas.cpp:3196-3222 | centroids never leave a box that holds the points |
| FrameHeader.ToLongLongOfDecimal | qiperfd/src/fileclient.cpp:166 | a written size reads back |
| FrameHeader.ToLongLongOfNumeral | qiperfc/src/filesaveSocket.cpp:43 | blanks, a sign and digits give their value if it has 64 bits, else 0 |
| FrameHeader.OnlyNumeralsCount | qiperfc/src/filesaveSocket.cpp:43 | any other size text gives 0 |
| FrameHeader.DigitsValueConcat | qiperfc/src/filesaveSocket.cpp:43 | digits count by their place |
| FrameHeader.HeaderRoundTrip | qiperfc/src/filesaveSocket.cpp:38-43 | a header for a name without colon announces that name and size |
| FrameHeader.HeaderIff | qiperfc/src/filesaveSocket.cpp:38-43 | a line is a header exactly when it begins with `FILE:` and has two colons; then name and size text are what the colons part |
| FrameHeader.NegativeHeader | qiperfc/src/filesaveSocket.cpp:40-43 | the parse announces any negative 64-bit size as written |
| FileSaveSocket.Receiver.TakeHeader | qiperfc/src/filesaveSocket.cpp:37-57 | consuming one header line, accepted as `FrameHeader.HeaderIff` says, and whether the loop goes on |
| FileSaveSocket.Receiver.TakeBody | qiperfc/src/filesaveSocket.cpp:60-83 | moving body bytes, closing a complete file |
| FileSaveSocket.ReadBody | qiperfc/src/filesaveSocket.cpp:60-83 | a file is closed only with exactly its declared size, and takes no byte beyond it |
| FileSaveSocket.Receiver.OnReadyRead | qiperfc/src/filesaveSocket.cpp:25-86 | the loop reaches the state that draining the buffer defines, and whether it ends; if it does not, that is the state it repeats |
| FileSaveSocket.Receiver.Arrive | qiperfc/src/filesaveSocket.cpp:25-86 | the same for a newly arrived segment |
| DrainOutcome.BodyProgress | qiperfc/src/filesaveSocket.cpp:60-71 | a pass over an open file changes nothing exactly when the declared size is negative |
| DrainOutcome.UnreadIsATail | qiperfc/src/filesaveSocket.cpp:25-86 | what stays unread is a tail of what was there |
| DrainOutcome.RefusalStops | qiperfc/src/filesaveSocket.cpp:48-53 | the loop returns early exactly when some announced name does not open, leaving what follows the first such header |
| DrainOutcome.ColonNameOpensNothing | qiperfc/src/filesaveSocket.cpp:41-55 | the header of a name with a colon opens and stores nothing, and the loop goes on behind it |
| DrainOutcome.SpinsIff | qiperfc/src/filesaveSocket.cpp:60-71 | the loop never ends exactly when a file of negative size is open with bytes to read, or all announced names open and one has a negative size and a byte after it |
| DrainOutcome.NegativeSizeSpins | qiperfc/src/filesaveSocket.cpp:40-71 | every such header with any byte after it makes a receiver between two files spin |
| DrainOutcome.ConcreteSpin | qiperfc/src/filesaveSocket.cpp:60-71 | a concrete stream on which the loop never ends |
| Segmentation.DrainAppend | qiperfc/src/filesaveSocket.cpp:25-86 | further bytes commute with draining, and stay unread after a failed open |
| Segmentation.FeedingInTwo | qiperfc/src/filesaveSocket.cpp:25-86 | feeding a then b equals feeding a + b exactly when no name announced in a is refused, or no full line follows the first refused header |
| Segmentation.AnySegmentation | qiperfc/src/filesaveSocket.cpp:25-86 | any cutting of a stream gives the same files, partial file, unread bytes and finished count as the whole, exactly when no announced name is refused, or no full line follows the first refused header, or the last segment reaches back before what follows it |
| Segmentation.AnySegmentationWhenAllOpen | qiperfc/src/filesaveSocket.cpp:25-86 | when every announced name opens, segmentation does not matter |
| Segmentation.SegmentationsAgree | qiperfc/src/filesaveSocket.cpp:25-86 | for any streams and opens, two cuttings of one stream end in the same state exactly when they leave equally many bytes unread |
| Segmentation.FailedOpenDelaysTheNextFrame | qiperfc/src/filesaveSocket.cpp:48-53 | a concrete stream for which segmentation matters after a failed open |
| Segmentation.FilesArriveAsSent | qiperfc/src/filesaveSocket.cpp:25-86 | framed files among other lines arrive exactly, in order, in any segmentation, with nothing left over |
| Segmentation.NamesStayClean | qiperfc/src/filesaveSocket.cpp:40-47 | no stored name has a colon or a line break |
| Segmentation.FrameRoundTripIff | qiperfc/src/filesaveSocket.cpp:37-57 | a frame yields its file exactly when the name has no colon and no line break |
| Checksum.TwoStepFold | src/icmpwrapper.cpp:871-873 | the fixed fold of any 32-bit sum is its residue modulo 65535, complemented |
| Checksum.CalculateChecksumOfChars | src/icmpwrapper.cpp:859-874 | the complemented residue of the wrapped 32-bit word sum |
| Checksum.CalculateChecksumOfVoid | src/icmpwrapper.cpp:876-889 | the same value, computed downward |
| Checksum.ComputeChecksum | src/icmpwrapper.cpp:41-59 | the same residue of the 64-bit sum by the fold loop, for odd sizes with the two bytes past the end that it reads |
| Checksum.OnesSumIsNorm | src/icmpwrapper.cpp:43 | RFC 1071's end-around-carry sum is the sum modulo 65535 |
| Checksum.RoutinesAgree | src/icmpwrapper.cpp:41-59 | up to 65537 words all routines return the RFC 1071 checksum |
| Checksum.AgreementBoundIsExact | src/icmpwrapper.cpp:859-889 | they do so for all buffers of n words exactly when n is at most 65537 |
| Checksum.ChecksumSwaps | src/icmpwrapper.cpp:859-889 | swapping the bytes of every word swaps the bytes of the checksum |
| Checksum.WireBytesSameOnEveryHost | src/icmpwrapper.cpp:859-889 | host-order reads and stores put the same checksum bytes on the wire |
| IcmpPacket.CreateIcmpPacket | src/icmpwrapper.cpp:827-857 | length, type, identifiers and fill of the packet, and that the receiver's check accepts it |
| IcmpPacket.Stamp | src/icmpwrapper.cpp:852-854 | computing and copying the checksum in changes only its field and makes the packet acceptable |
| IcmpPacket.VerifyReply | src/icmpwrapper.cpp:286-292 | compares the field with the recomputed checksum and leaves it zeroed |
| IcmpPacket.StampedIsAccepted | src/icmpwrapper.cpp:852-854 | any stamped packet passes the other routine's check |
| IcmpPacket.AcceptedIffSumIsAllOnes | src/icmpwrapper.cpp:286-292 | accepted exactly when the full one's complement sum is all ones and the field is not 0xFFFF in place of 0 |
| IcmpPacket.ReplacedWordDetected | src/icmpwrapper.cpp:286-292 | exactly which replacements of one aligned word go unnoticed |
| IcmpPacket.ReplyDetects | src/icmpwrapper.cpp:286-292 | for replies: if a word other than the checksum and the replaced one is not zero, a replacement goes unnoticed exactly when congruent modulo 65535 |
| IcmpPacket.EchoRequestDetects | src/icmpwrapper.cpp:827-857 | for the sender's packets: a replaced word goes unnoticed exactly when congruent modulo 65535, a replaced checksum never |
| IcmpPacket.OddLengthIsPaddedIff | src/icmpwrapper.cpp:867-869 | an odd packet has the zero-padded packet's checksum exactly on little-endian hosts or for a zero last byte |
| IcmpPacket.OverreadHarmlessIff | src/icmpwrapper.cpp:48-53 | for exactly which bytes past an odd buffer the 64-bit routine still returns the RFC 1071 checksum |
| IperfParser.Parser.ParseLine | src/iperfwrapper.cpp:530-617 | one report that the filter of `IperfParser.LineIgnoredIff` passes updates the pending map and sends a full batch |
| IperfParser.Parser.ParseLog | src/iperfwrapper.cpp:530-617 | a whole log in order |
| IperfParser.LineIgnoredIff | src/iperfwrapper.cpp:533-547 | a line changes nothing exactly when it fits no interval, is no average and not special while wrong intervals are ignored (or `parallel` is negative and its interval known) |
| IperfParser.SumNeverRecognised | src/iperfwrapper.cpp:542-547 | the index read from a line never names the sum |
| IperfParser.SumHasNoIndex | src/iperfwrapper.cpp:631-651 | a bracket that names the sum gives an empty index |
| IperfParser.IndexIsRead | src/iperfwrapper.cpp:639-642 | a number between blanks, starred or not, behind the last opening bracket is read as it stands |
| IperfParser.OnlyNumbersAreIndices | src/iperfwrapper.cpp:639-642 | nothing else gives an index |
| IperfParser.RunTidy | src/iperfwrapper.cpp:595-616 | batches are full, of one interval and under its time; pending lists are neither empty nor full and hold only their key's records |
| IperfParser.EndTimeIs | src/iperfwrapper.cpp:600-607 | an interval is emitted under the whole seconds of its end, shifted by delay and offset |
| IperfParser.BatchesAreBlocks | src/iperfwrapper.cpp:549-617 | a key's batches are its arrivals cut into blocks of exactly `parallel`, the rest is pending, for any interleaving |
| IperfParser.BlocksCover | src/iperfwrapper.cpp:549-617 | the blocks and the rest are all arrivals in order |
| IperfParser.RecordsHoldLines | src/iperfwrapper.cpp:549-592 | batches and pending records of an interval hold its lines' own fields, one by one and in order |
| IperfParser.KeyCount | src/iperfwrapper.cpp:556-610 | a key's batches times `parallel` plus what is pending is the number of its accepted lines |
| IperfParser.NothingLostIff | src/iperfwrapper.cpp:556-610 | nothing is lost, repeated or moved exactly when `parallel` is positive or no line is accepted |
| IperfParser.RecordsCountedIff | src/iperfwrapper.cpp:549-610 | over all intervals, sent plus pending records are the accepted lines exactly when `parallel` is positive or no line is accepted |
| IperfParser.ExtraLineStaysPending | src/iperfwrapper.cpp:542-554 | a line beyond whole blocks, such as [SUM], is left pending |
| IperfFileWorker.TPData.Append | qiperfc/src/iperffileworker.cpp:113-124 | a sample extends all five columns and sets the direction |
| IperfFileWorker.Worker.StreamFor | qiperfc/src/iperffileworker.cpp:104-109 | the stream's object, made on first use, shared with no other stream |
| IperfFileWorker.Worker.Collect | qiperfc/src/iperffileworker.cpp:102-124 | one stream's columns gain the sample, all others are unchanged |
| IperfFileWorker.Worker.OnThroughputData | qiperfc/src/iperffileworker.cpp:63-134 | a batch adds each stream's samples to its columns and passes on the averages; nothing without a direction tag |
| IperfFileWorker.BatchRowsHold | qiperfc/src/iperffileworker.cpp:73-124 | what a batch adds to a stream are the fields of its records that are no average and bear the stream's key |
| IperfFileWorker.Worker.Replay | qiperfc/src/iperffileworker.cpp:29-30 | after all batches exactly the streams with samples have columns, and these show, position by position, the samples' own times, values, lost and total packets, loss rate and direction; the averages are the average reports |
| IperfFileWorker.RowsHoldSamples | qiperfc/src/iperffileworker.cpp:73-124 | a stream's rows hold the fields of its samples over all batches, in order |
| IperfFileWorker.AveragesHoldReports | qiperfc/src/iperffileworker.cpp:97-101 | the averages passed on hold the fields of the average reports, in order |
| IperfFileWorker.Worker.OnWorkFinished | qiperfc/src/iperffileworker.cpp:136-150 | each stream is sent once, in the order of the stream keys |
| Text.LessMeans | qiperfc/src/iperffileworker.cpp:139-140 | one key comes before another exactly when it is smaller at the first difference or ends there |
| IperfFileWorker.ReplayLog | qiperfc/src/iperffileworker.cpp:12-39 | parser and worker together: the columns show the samples of the batches the log yields |
| IperfFileWorker.SamplesAndAverages | qiperfc/src/iperffileworker.cpp:97-126 | samples of all streams plus averages are all records sent |
| IperfFileWorker.EveryLineCountedIff | src/iperfwrapper.cpp:549-610 | from log to plot: samples of all streams, averages and pending records are together the accepted lines, under that exact condition |
| IperfFileWorker.PartialLossShowsAsZero | qiperfc/src/iperffileworker.cpp:88-94 | the loss rate is zero exactly for no packets or a loss smaller than the total |
| IperfFileWorker.LostRateIsLossRate | qiperfc/src/iperffileworker.cpp:88-94 | the rate is a hundred times the quotient without its fraction, for either sign |
| IperfFileWorker.PlotsAsSentIff | qiperfc/src/iperffileworker.cpp:120-124 | a record plots as sent exactly when "TX" stands somewhere in its tag |
| IperfFileWorker.BothTagsPlotAsReceived | qiperfc/src/iperffileworker.cpp:120-124 | both tags of the tool give direction 1 |
| QDataStream.TextRoundTrip | qiperfc/src/qipconfig.cpp:392-409 | a written string, null or not, reads back and leaves the rest |
| QDataStream.TextLayout | qiperfc/src/qipconfig.cpp:392-395 | a string is its length in bytes and its units, high byte first; a null string is four bytes 255 |
| QDataStream.TextWhole | qiperfc/src/qipconfig.cpp:405-409 | a string that reads without error was written there |
| QDataStream.BytesRoundTrip | qiperfc/src/qipconfig.cpp:46-47 | a written byte array reads back and leaves the rest |
| QipConfig.Config.FilesToStore | qiperfc/src/qipconfig.cpp:419-447 | the entries of the files that open, in order |
| QipConfig.Config.SaveToFile | qiperfc/src/qipconfig.cpp:87-109 | the file becomes the container of the settings and record files, nothing else changes; a record file that is itself the target is stored as the part of the head already flushed |
| QipConfig.Config.WriteEntry | qiperfc/src/qipconfig.cpp:467-475 | one unpacked file is written and remembered, or skipped |
| QipConfig.Config.FilesFromStore | qiperfc/src/qipconfig.cpp:449-479 | the reading loop unpacks exactly the entries the bytes hold, whatever they are |
| QipConfig.Config.LoadFromFile | qiperfc/src/qipconfig.cpp:31-85 | fields, files, remembered paths and result for every file content and every error path |
| QipRoundTrip.SerializeRoundTrip | qiperfc/src/qipconfig.cpp:387-417 | the settings read back |
| QipRoundTrip.EntriesRoundTrip | qiperfc/src/qipconfig.cpp:419-479 | the `atEnd` loop inverts the writing loop for any number of entries |
| QipRoundTrip.ContainerRoundTrip | qiperfc/src/qipconfig.cpp:31-109 | a saved container decodes to what was saved, record files exactly when there is a test date |
| QipRoundTrip.ContainerLayout | qiperfc/src/qipconfig.cpp:95-103 | the container byte by byte: magic, the number 2, the compressed settings in their order, the record files |
| QipRoundTrip.EntryLayout | qiperfc/src/qipconfig.cpp:424-441 | a record file is its name, the length of its compressed content, and that content |
| QipRoundTrip.VersionOneLoads | qiperfc/src/qipconfig.cpp:70-73 | a version 1 file loads its main settings |
| QipRoundTrip.LoadsIff | qiperfc/src/qipconfig.cpp:45-76 | whoever wrote it, a file loads exactly when its magic begins with `.QIP` and its data with settings of its version, and those are loaded; record files are read exactly with version 2 or later and a test date |
| QipRoundTrip.SaveLoadsIffCurrent | qiperfc/src/qipconfig.cpp:95-103 | a save loads exactly when written by an object of version 2 or later |
| QipRoundTrip.AllRestoredIff | qiperfc/src/qipconfig.cpp:460-477 | every stored file comes back exactly when entries of one name agree in content |
| QipRoundTrip.RecordFilesReappear | qiperfc/src/qipconfig.cpp:419-479 | record files with distinct base names reappear with their contents |
| QipRoundTrip.RecordFilesLie | qiperfc/src/qipconfig.cpp:60-62 | they lie in the temporary path's folder named after the test date, under their base names |
| QipRoundTrip.StoredIntactIff | qiperfc/src/qipconfig.cpp:87-109 | a save stores all record files as they were exactly when it does not overwrite one of them with another content |
| QipRoundTrip.SaveThenLoad | qiperfc/src/qipconfig.cpp:31-109 | saving with one object and loading with another restores settings and record files |
| BeamTable.CollectDistances | JIO/cyntec.cpp:414-429 | every beam of the type but the target, once, with its distance |
| BeamTable.TakeRings | JIO/cyntec.cpp:436-446 | an entry is taken exactly when its ring is among the first `neighborGroup` |
| BeamTable.FindNearestNeighbors | JIO/hanwha.cpp:281-327 | a beam of the type is returned exactly when fewer than `neighborGroup` distinct distances are smaller, nearest first, never the target |
| MetricsStore.Store.Insert | JIO/perfmetricsstore.h:14-31 | the log grows by the entry and both indexes still show it |
| MetricsStore.Store.GetClientsAt | JIO/perfmetricsstore.h:33-36 | for every client the last record of its history at that time, and no other client |
| MetricsStore.Store.GetClientHistory | JIO/perfmetricsstore.h:38-41 | the client's part of the log in order |
| MetricsStore.InsertAll | JIO/perfmetricsstore.h:14-41 | over any run of inserts both indexes show exactly what was inserted |
| MetricsStore.InsertKeepsAgreement | JIO/perfmetricsstore.h:29-30 | an insert keeps the two indexes in agreement |

## Left out

- Floating-point rounding, NaN and Qt's tolerant `QPointF` comparison: reals and exact equality instead.
- The conversion of bearings to planar points and all geodesy: the clustering takes arbitrary points.
- Dbscan: a point's position and label are kept apart, the positions as an immutable sequence and the labels as the array that is updated.
- Ordering.Sort: the library sort is an insertion sort here; its callers rely only on a sorted permutation.
- Segmentation.FilesArriveAsSent: starts from the header `FILE:<name>:<size>`; that the sender forms it by two `QString::arg` calls, which alter names holding place markers such as `%1`, is not modelled.
- FrameHeader.ParseHeader: decoding the header line from UTF-8 is taken as the identity, and only ASCII blanks are trimmed.
- IcmpPacket.CreateIcmpPacket: IPv6, and packet sizes from 1 to 41, for which the fill length wraps around to about 4 GB and what then happens depends on the Qt version.
- IcmpPacket.VerifyReply: the checks of address family, type, identifier and sequence before the checksum, and the 1024-byte receive buffer.
- IperfParser.Parser.ParseLine: matching and splitting of report lines, and the jitter fields; records arrive split into tokens, with the text between the first brackets, the direction tag and whether the interval fits.
- `parserIperf2`: it removes a batch by the rewritten key (`src/iperfwrapper.cpp:430`), so the block law does not hold for it.
- IperfFileWorker.ReplayLog: batches are handed over directly; threads and queued signals are not modelled.
- QipConfig.Config.LoadFromFile: creating the output folder is assumed to succeed, and starting the log workers is a parameter.
- QDataStream: byte arrays and strings of 4 GB or more, which newer Qt versions write in another form.
- `PerfMetricsStore::toJson` and its lock: a second view of the time index, and concurrency control without effect on the contents.
- Dialogs, plotting, tray, settings, SSH, REST, NTP and database code.
