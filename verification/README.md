# A model of the logger packet codec

The repository builds, compresses, collects and reads packets of at most 24 bytes that carry the temperatures of a
string of sensors (a "plume", `kosa` in the code). This project models that path and proves what it keeps:

- **The fixed-table Huffman codec** (`util-compress.cpp`). `BitWriter` and `BitReaders` are the bit packing writer
  and the two readers, proved against sequences of bits. `Huffman` has the encoder's tables and the decoder's
  tree, `HuffmanLaws` what holds of any bits, `HuffmanCodec` the encoding and decoding loops.
- **Packets** (`logger-builder.cpp`, `logger-huffman.c`, the `get` side of `logger-collection.cpp`). `Temperature`
  converts degrees to 1/16 degree, `Packets` has the headers as bytes, `DeltaWidth` the deltas and the bits chosen for
  them, `BaseBuilder`, `DeltaBuilder` and `HuffmanBuilder` the three builders. `Layout` says by offset which bytes they
  produce. `Readings` and `Collection` read collected packets back, and `ReadingLaws` says how single packets are read.
  `Assembly`, `BaseReading`, `NarrowReading`, `DeltaReading`, `HuffmanOffsets`, `HuffmanReading`, `HuffmanLimits` and
  `EndToEnd` prove the way from temperatures to packets to values, for packets that arrive in any order and more than
  once.
- **Collecting** (`put`, `add`). `Framing` and `FramingLaws` split a buffer into packets, `Completeness` says when a
  collection is complete. `Collector`, `CollectorLaws`, `Owners`, `YearRecovery`, `PlumeGroups`, `Memory` and
  `Delivery` group packets by plume, follow which items still point to their group, and recover the year that follow-up
  packets do not carry, over all sequences of arriving packets.
- **The hexadecimal list** in which the base measurement is kept (`HexList`).

`Bits` and `Wrappers` are shared helpers. A packet is a `seq<byte>`. Each function that specifies a loop says what
the result is; the method beside it is the loop, with the fields or buffers that the source updates.
Where the source has no defined result (a chunk of one byte makes `srcSize - 2` wrap around) the model has `Err`.
Temperatures are reals; every step of the conversion is exact on them.

## Results that differ from what one may expect

- `calcRequiredBits` counts magnitude bits and `bytesRequiredForBits` gives one byte to eight of them: a delta of
  128 to 255 is sent in a signed byte and read with the wrong sign (`EightDegreesAreLost`). The round trips therefore
  hold if and only if the width is two or every delta fits in a signed byte.
- `maxDiff` is an `int16_t`: a delta of -32768 resets it, and deltas before it no longer count
  (`WidthRule`, `LargestCounted`, `ExtremeDeltaHidesWidth`, `ForgottenDeltaIsLost`).
- `buildHuffman` reads past the end of a chunk if and only if, while it halves the number of sensors, a chunk size that
  leaves one sample byte over comes before one that fits (`HuffmanDefined`), for example for 27 sensors. The
  numbers of sensors that are never affected are exactly those of the predicate `SafeFrom` (`SafeCounts`).
- Follow-up packets do not say how wide their samples are. When samples take two bytes, a measurement whose first packet
  did not come first is read with one byte for each and never comes back right; with one byte any order will do
  (`DeltaRoundTrip`, `HuffmanRoundTrip`, `LateFirstIsLost`).
- The plain delta `build` shortens the first packet by bits where bytes are meant: one to five
  deltas of which none but 0 counts are lost, short measurements can get a first packet longer than 24 bytes, and
  sensors of a longer base are then read that were not measured (`DeltaRoundTrip`, `ReadLengthIs`, `DeltaFirstSize` and
  the examples beside them). What is over after 24 bytes begins with 0 and is taken for a raw packet (`DeltaFramed`).
- Huffman packets announce the number of packets that plain ones would need, so `completed` stays false whenever
  fewer of them suffice (`HuffmanComplete`); it counts repeated packets again (`CompleteWhen`, `RepeatsAreCounted`).
- README.md:560 of the repository says that decompression can add one element. With the encoder's own padding it
  adds none (`RoundTrip`); with other padding it can add up to seven (`AnyPadding`, `WorstPadding`).
- A follow-up packet that arrives before the first packet of its plume, without a loaded record, begins a second group
  for good, unless the plume is from year 0 (`LateFirstSplits`, `RunIsGrouping`).
- Items point to the collection that owns them. `add` refreshes these pointers for the first group only, after it
  copied the groups: another group cannot be read once a delta or Huffman packet in it was copied, and what a new plume
  announces is expected of the first group (`GroupIsRead`, `GroupExpects`, `SecondPlumeIsLost`).

## Model

| member | source | states |
|---|---|---|
| BitWriter.BitBufferWriter.Push | util-compress.cpp:282-312 | pushing appends exactly the low bits of the value, high bit first, to the bits written, across byte boundaries; the buffer has just the bytes needed and is zero after them |
| BitWriter.BitBufferWriter.AppendPaddingBits | util-compress.cpp:353-361 | a partial last byte is filled with the beginning of 0, 1, 0, 1, ... and the written bits stay |
| BitReaders.BitBufferReader.PeekReadsSlice | util-compress.cpp:152-175 | peeking at any offset shifts exactly the addressed slice of the buffer's bits into the accumulator |
| BitReaders.BitBufferReader.Pop | util-compress.cpp:182-190 | gives the next bits as a number and moves on, or leaves the position when too few are left |
| BitReaders.BitBufferReader.Pop1 | util-compress.cpp:196-204 | gives the next bit and moves on, or reports the end |
| BitReaders.BitStreamReader.Peek | util-compress.cpp:221-247 | the lazy reader finds the end exactly if the slice goes beyond the input, and otherwise reads the same slice |
| BitReaders.BitStreamReader.Pop | util-compress.cpp:254-261 | the next bits as a number, or the end of input found exactly when they are not all there |
| BitReaders.BitStreamReader.Pop1 | util-compress.cpp:267-274 | the next bit, or the end of input found exactly when there is none |
| Huffman.TreeMatchesTables | util-compress.cpp:17-37 | a path in the decoder's tree ends at a leaf exactly if it is the encoder's code word of that leaf's symbol |
| Huffman.CodeTable | util-compress.cpp:17-37 | the code of every byte: the nine code words of the table, and for all others 01 and the byte itself |
| HuffmanCodec.PushSymbol | util-compress.cpp:433-446 | a byte in the table is written as its code word, any other as the escape code and the byte itself |
| HuffmanCodec.EncodeHuffman | util-compress.cpp:424-452 | the output is the concatenation of the codes of all bytes, padded to whole bytes; the result is the number of bits |
| HuffmanCodec.EncodeHuffmanStream | util-compress.cpp:388-415 | the stream encoder encodes the stream followed by one 0xFF, and its output decodes to that |
| HuffmanCodec.DecodeHuffman | util-compress.cpp:522-557 | the loop over the tree yields the decoding of all bits of the source |
| HuffmanCodec.DecodeHuffmanStream | util-compress.cpp:480-513 | the stream loop yields the decoding of all bits of the stream, an empty stream read as 0xFF |
| HuffmanCodec.StreamDecoderAgrees | util-compress.cpp:480-557 | both decoders agree exactly on the inputs that are not empty; on the empty one the stream decoder gives eight zeros |
| HuffmanLaws.DecodeIsLexing | util-compress.cpp:522-557 | a decoding is `s` if and only if the bits are tokens meaning `s` followed by bits that no token begins |
| HuffmanLaws.RoundTrip | util-compress.cpp:424-557 | decoding undoes encoding for every byte string and every final alignment, with nothing added |
| HuffmanLaws.AnyPadding | util-compress.cpp:353-361 | with any padding of fewer than 8 bits the string is a prefix of the decoding, at most 7 bytes are added, and none exactly if no token begins the padding |
| HuffmanLaws.WorstPadding | util-compress.cpp:353-361 | padding with ones adds seven bytes |
| HuffmanLaws.Minimal | util-compress.cpp:424-452 | no byte string that decodes to `s` is shorter than the encoding of `s` |
| HuffmanLaws.EncodedSize | util-compress.cpp:378-380 | every byte takes 1 to 10 bits |
| HuffmanLaws.DecodedSize | util-compress.cpp:522-557 | decoding is defined for every input and gives at most eight bytes for each byte |
| HuffmanCodec.CompressLogger | util-compress.cpp:461-472 | two bytes verbatim and the rest encoded; undefined below two bytes |
| HuffmanCodec.DecompressLogger | util-compress.cpp:566-579 | two bytes verbatim and the rest decoded; shorter sources are copied |
| HuffmanCodec.CompressionRoundTrip | util-compress.cpp:461-579 | compression is defined exactly from two bytes on and keeps the first two; decompression undoes it, and leaves shorter sources as they are |
| Temperature.Hton2Twice | platform.h:46-51 | a swapped value, stored low byte first, has its high byte first; swapping twice gives the sixteen bit value back |
| Temperature.DoubleToTemperature | logger-huffman.c:233-246 | the two bytes stored are 16 times the temperature, truncated toward zero in sixteen bits, high byte first |
| Temperature.TemperatureToDouble | logger-huffman.c:220-231 | decoding gives exactly a sixteenth of the number in the two stored bytes, high byte first, for both signs |
| Temperature.DecodeEncode | logger-huffman.c:220-246 | storing a decoded value gives the value back |
| Temperature.QuantisationError | logger-huffman.c:233-246 | the error is below 1/16 degree exactly for temperatures between -2048.0625 and 2048, and then what is stored lies between zero and the temperature |
| Temperature.CastableWhole | logger-huffman.c:233-246 | the conversion to sixteen bits is defined exactly if the whole degrees fit into them |
| Layout.BaseHeaderBytes | logger-builder.cpp:186-209 | the header packet byte by byte: type 4a, eight bytes for each sensor as size, measurement number, number of packets, plume, year; then time, plume, year, voltages and the measurement number low byte first |
| Layout.BaseLaterBytes | logger-builder.cpp:273-295 | as many packets as the header announces, the later ones with type 4b, plume, measurement and numbers from 2 |
| Layout.BaseRecordBytes | logger-builder.cpp:89-107 | at its place in its packet each sensor has its number, its sixteenths of a degree high byte first, and 0; the packet ends with its records |
| Layout.DeltaHeaderBytes | logger-builder.cpp:246-262 | the first delta packet byte by byte: type 48, the fewest bits that say every delta that counts, size, numbers, plume and year, then measurement number low byte first, 10, plume, year and zeros; and its length |
| Layout.DeltaLaterBytes | logger-builder.cpp:340-380 | as many packets as the deltas need, with type 49, plume, measurement and numbers from 2, as long as their samples |
| Layout.DeltaSampleBytes | logger-builder.cpp:119-184 | the delta of each sensor is at its place in its packet, in one byte, or in two with the low one first |
| Layout.HuffmanHeaderBytes | logger-builder.cpp:394-411 | the first Huffman packet byte by byte: type 4c and the same headers, the measurement number verbatim and all ten bytes after decompression |
| Layout.HuffmanLaterBytes | logger-builder.cpp:420-442 | later Huffman packets have type 4d, plume, measurement and numbers from 2 |
| Layout.HuffmanSampleBytes | logger-builder.cpp:394-442 | the delta of each sensor, 0 without a base, is at its place in its packet after decompression |
| BaseBuilder.SetFirstHeader | logger-builder.cpp:17-65 | the header fields are at their offsets, with the packet count that belongs to the type, and no other byte changes |
| BaseBuilder.SetMeasurementsData | logger-builder.cpp:89-107 | up to five sensor records are written after what is in the buffer, as many as there are sensors left |
| BaseBuilder.BuildBase | logger-builder.cpp:273-295 | the packets are the header packet and the five-sensor packets numbered from 2 |
| BaseReading.CountOfBasePackets | logger-builder.cpp:31-36 | up to 256 sensors give one packet and one for each five sensors begun, as many as announced |
| BaseReading.SensorInOnePacket | logger-builder.cpp:89-107 | each sensor is in exactly one base packet |
| BaseReading.BaseRoundTrip | logger-collection.cpp:918-928 | reading the base packets in any order and with repetitions gives a map with exactly the sensors and their stored temperatures |
| DeltaWidth.RequiredBits | logger-builder.cpp:211-244 | the number of magnitude bits: below 2 to their power, and not below 2 to one less; 15 from 0x8000 on |
| DeltaWidth.CalcDeltas | logger-builder.cpp:304-328 | one sixteen bit difference of the stored values for each temperature with a base, and the fewest bits that say every delta that counts, or 15 if the last is -32768 |
| DeltaWidth.LeastBits | logger-builder.cpp:304-328 | n bits suffice exactly if every delta that counts is below 2 to the power n in size; a last delta of -32768 takes 15 |
| DeltaBuilder.SetDeltaMeasurementsDataFirstPacket | logger-builder.cpp:159-184 | as many samples as fit are written in place after the header, and no other byte changes |
| DeltaBuilder.SetDeltaMeasurementsData | logger-builder.cpp:119-148 | the samples that belong to the packet number are written in place, and no other byte changes |
| DeltaBuilder.BuildDelta | logger-builder.cpp:330-380 | the plain delta packets, the first one cut as the code cuts it |
| DeltaWidth.MaxDiffRule | logger-builder.cpp:304-328 | the running maximum is negative exactly just after a delta of -32768, and at least 256 exactly if a delta since the last of these is |
| DeltaWidth.WidthRule | logger-builder.cpp:304-338 | two bytes are used exactly if the last delta is -32768, or some delta after the last -32768 is 256 or more in size |
| DeltaReading.SampleCancels | logger-collection.cpp:1267-1282 | for every involution on sixteen bits as byte order, the identity included: base value plus sample gives the stored value exactly if two bytes are used or the delta fits in a signed byte, also where sixteen bits wrap around |
| DeltaReading.SampleIsLossless | platform.h:46-51 | the same for temperatures and the byte swap of a little-endian host |
| DeltaReading.RebuiltIsStored | logger-collection.cpp:1267-1282 | all sensors read back right exactly if the deltas are lossless in the width chosen |
| NarrowReading.RightMeansNarrow | logger-collection.cpp:1199-1208 | whatever packets with deltas are read with one byte for each sample: if the stored temperatures come out, every delta fits in a signed byte |
| DeltaReading.DeltaValues | logger-collection.cpp:929-942 | base and delta packets in any order, with the first one first if samples take two bytes, for a base of any length, read as base plus sample for exactly the sensors that the packets' sizes cover |
| DeltaReading.DeltaRoundTrip | logger-collection.cpp:1228-1284 | for packets in any order the stored temperatures come back if and only if the deltas are lossless, the first packet came first or samples take one byte, and it is cut right: no deltas, or enough to fill it, or the largest that counts is 1, or larger and the base has no further sensors; the deltas that count are those after the last -32768 |
| DeltaReading.LateFirstIsLost | logger-collection.cpp:1199-1208 | four sensors 20 degrees above their base: the two packets read right in their order and wrong in the other |
| DeltaWidth.LargestCounted | logger-builder.cpp:304-328 | the running maximum is at most a bound exactly if the last delta is not -32768 and every larger delta is, or comes before, one of -32768 |
| DeltaReading.ReadLengthIs | logger-builder.cpp:365-366 | as many sensors are read as there are deltas exactly if the cut is right; fewer exactly for one to five deltas of which every one after the last -32768 is 0, and that is not the last |
| DeltaReading.EqualTemperaturesAreLost | logger-builder.cpp:365-366 | one sensor as warm as its base is not read |
| DeltaReading.ForgottenDeltaIsLost | logger-builder.cpp:319-321 | nor are sensors of -2048 and 0 degrees over a base of 0 |
| DeltaReading.ExtraSensorIsRead | logger-builder.cpp:365-366 | one delta of half a degree and a base of two sensors read as two sensors |
| DeltaReading.EightDegreesAreLost | logger-collection.cpp:441-448 | a delta of 128 goes into one byte and is read as -128 |
| DeltaReading.ExtremeDeltaHidesWidth | logger-builder.cpp:319-321 | for 16, -2048 and 0 degrees over a base of 0 one byte is used, and the first sensor reads as its base |
| HuffmanBuilder.BuildHuffmanFirst | logger-builder.cpp:394-411 | header verbatim, then measurement header and samples compressed (their bytes: Layout.HuffmanHeaderBytes) |
| HuffmanBuilder.BuildHuffmanSecond | logger-builder.cpp:420-442 | header verbatim, then the samples of the packet's sensors compressed; undefined for a single byte |
| HuffmanBuilder.BuildHuffmanChunk | logger-builder.cpp:382-448 | all packets of a chunk size and the size of the largest |
| HuffmanBuilder.BuildHuffman | logger-builder.cpp:450-468 | the packets of the first chunk size, by halving, for which all fit |
| HuffmanLimits.ChosenFits | logger-builder.cpp:457-467 | halving ends with packets that fit, before a chunk of one sensor is tried, so the exit for chunk size 0 is not taken |
| HuffmanLimits.PacketsFit | logger-builder.cpp:450-468 | every packet of every measurement is at most 24 bytes long |
| HuffmanLimits.HuffmanDefined | logger-builder.cpp:420-445 | the builder compresses a single byte exactly if, among the halvings of the number of sensors, one that leaves one sample byte over comes before one whose encoded bits fit |
| HuffmanLimits.SafeCounts | logger-builder.cpp:450-468 | all measurements of n sensors are encoded, whatever their base, if and only if no chunk size that is reached by halving one of eight sensors or more leaves one over |
| HuffmanLimits.WorstFails | logger-builder.cpp:450-468 | for every other number, sensors 6.25 degrees above their base on a plume outside the table are a measurement that fails |
| HuffmanLimits.TwentyEightSensors | logger-builder.cpp:450-468 | 28 sensors are always encoded, 27 are not |
| HuffmanOffsets.OffsetIsSum | logger-collection.cpp:84-124 | in any collection the offset is the sum, over the distinct smaller packet numbers, of the decompressed size of the packet with that number that arrived first; 0 for numbers below 2 |
| HuffmanOffsets.WhatCounts | logger-collection.cpp:97-119 | packets 4c count as number 1, packets 4d as their number if that is not too large, with the size of what follows their headers; no others count |
| HuffmanOffsets.OffsetWhenConsistent | logger-collection.cpp:84-124 | with equal sizes for equal numbers it is the sum of these sizes |
| HuffmanOffsets.OffsetIgnoresOrder | logger-collection.cpp:84-124 | then arrival order and repetitions do not change the offset |
| HuffmanReading.OffsetFound | logger-collection.cpp:951-958 | in any collection of packets 1 to k, packet p finds the bytes of all chunks before its own |
| HuffmanReading.ChunksAreRead | logger-collection.cpp:943-960 | packets 1 to k of any chunk size, in any order, with the first one first if samples take two bytes, read as base plus sample for exactly their sensors |
| EndToEnd.HuffmanRoundTrip | logger-builder.cpp:450-468 | packets 1 to k of the builder, in any order and with repetitions, read as values of exactly the sensors of k chunks that have a base, and as the stored temperatures if and only if the deltas are lossless; if samples take two bytes and another packet came first, the whole measurement never comes back, and a part only if its deltas fit in one byte |
| Collection.LoggerCollection.Get | logger-collection.cpp:1697-1705 | the loop reads the items one after the other into the map |
| Collection.LoggerCollection.GetItem | logger-collection.cpp:899-965 | each packet type is read by its own rule, with the offset its number gives |
| Collection.LoggerCollection.GetHuffmanPacketMeasurementOffset | logger-collection.cpp:84-124 | the loop with its set of packet numbers counts each number once |
| Collection.LoggerCollection.GetByDiff | logger-collection.cpp:1228-1284 | base values are loaded, and as many samples are added as the packet has and the base covers, in the width that the first header of the collection says (its effect: DeltaRoundTrip, ReadingLaws.BitsOfHead) |
| ReadingLaws.BitsOfHead | logger-collection.cpp:1199-1208 | the width comes from the low half of byte 1 of a packet with a first header at the head of the collection, and is one bit otherwise |
| ReadingLaws.LastRecordCounts | logger-collection.cpp:904-928 | reading records gives each sensor the value, low byte first in memory, of its last record, and leaves other sensors as they were |
| ReadingLaws.AllRecordsAreRead | logger-collection.cpp:904-928 | a raw or later plain packet with the records of any number of sensors reads as their stored temperatures |
| ReadingLaws.KnownPackets | logger-collection.cpp:899-965 | which packets `get` knows, by first byte and size; unknown ones, header packets, and packets with deltas without a base change nothing |
| ReadingLaws.GapsAreFilled | logger-collection.cpp:1265-1282 | over a base with any sensors a missing one counts as 0 and is added: a sensor is reached exactly if it is below the number of base sensors and of gaps passed, and then reads as its base plus its sample |
| ReadingLaws.LaterWraps | logger-collection.cpp:1252-1262 | first sensor and number of samples of a later packet wrap around in a byte, also below zero |
| ReadingLaws.ReadableSizes | logger-collection.cpp:943-960 | reading is undefined exactly for Huffman packets shorter than their header |
| ReadingLaws.StoredIsReadable | logger-collection.cpp:1549-1628 | all that is stored can be read |
| Collection.LoggerCollection.ReadDiffs | logger-collection.cpp:1265-1282 | the loop stops at the end of the packet or of the base |
| Assembly.DiffLoopReads | logger-collection.cpp:1265-1282 | reading samples adds exactly the values of the sensors the packet covers |
| Assembly.AnyOrder | logger-collection.cpp:1697-1705 | if packets contribute parts of one map, any order and repetition of them reads as that map |
| Assembly.AnyOrderOver | logger-collection.cpp:1697-1705 | and, read into a map, puts it over what is there |
| Collection.LoggerCollection.Put1 | logger-collection.cpp:1549-1628 | one packet is taken from the buffer by its type's size and stored with plume, number and year, or with the identity that is loaded for later delta and Huffman packets; an unknown byte stores nothing and takes the rest; a raw packet, one shorter than its headers, or with a loaded record a first delta packet without its measurement header, is an error and stores nothing (by offset: FirstByteDecides, StorableSizes, FirstIsStored, LaterIsStored) |
| Collection.LoggerCollection.Put | logger-collection.cpp:1650-1676 | the loop ends for every buffer and stores exactly the packets it splits into, up to the first that is an error |
| Collection.LoggerCollection.PutAll | logger-collection.cpp:1678-1690 | buffers are put one after the other, up to one with an error; what ends the last one is returned as its type, the unknown type for no buffers |
| FramingLaws.FirstByteDecides | logger-huffman.c:49-85 | how a buffer is split, by its first byte: 16 bytes after 00, 24 after 48 to 4b, all after 4c and 4d, and no packet after any other; shorter buffers are one packet |
| FramingLaws.HuffmanFrame | logger-huffman.c:71-76 | a buffer that begins with 4c or 4d is one packet with all its bytes |
| FramingLaws.StorableSizes | logger-collection.cpp:1549-1628 | which packets can be stored, by first byte, size and whether a record is loaded |
| FramingLaws.FirstIsStored | logger-collection.cpp:1086-1158 | a first packet is stored with plume, measurement, number 1 and year from its bytes 6, 4 and 7, unchanged but for bytes 15 and 16 of a header packet, and announces its byte 5 |
| FramingLaws.LaterIsStored | logger-collection.cpp:1210-1226 | a later packet is stored unchanged with its byte 3 as number; plume and measurement from bytes 1 and 2 and the year of the collection's first header, else the collected one, else the loaded one, else 0; or, for packets with deltas, all from the loaded record |
| FramingLaws.FramesOfConcat | logger-huffman.c:49-85 | splitting the concatenation of packets gives them back if and only if all but the last have the exact size of their type and the last is not longer |
| FramingLaws.FirstLabelsAll | logger-collection.cpp:1210-1226 | the first packet of a buffer dates all packets after it, whatever the collector has collected; only a loaded identity comes before it |
| FramingLaws.BaseInOneBuffer | logger-collection.cpp:1650-1676 | the base packets in one buffer are stored as exactly these, numbered from 1, with plume and year |
| FramingLaws.BaseBufferRoundTrip | logger-collection.cpp:1650-1705 | the temperatures come back from one buffer with all base packets |
| FramingLaws.DeltaFirstSize | logger-builder.cpp:365-366 | the first delta packet is at most 24 bytes long exactly if the deltas fill it or have at most six bits in all |
| FramingLaws.DeltaIsOneMeasurement | logger-builder.cpp:330-380 | the delta packets are a first and later packets of one plume, and have the sizes of their types exactly under that condition |
| FramingLaws.DeltaInOneBuffer | logger-collection.cpp:1650-1676 | delta packets in one buffer are found again exactly if the deltas fill the first packet or have at most six bits in all |
| FramingLaws.BaseFramed | logger-collection.cpp:1678-1690 | base packets put as one buffer each are found again |
| FramingLaws.DeltaFramed | logger-collection.cpp:1678-1690 | delta packets put as one buffer each are found again exactly if the deltas fill the first packet or have at most six bits in all; otherwise the rest of the first begins with 0 and ends in the error of a raw packet |
| FramingLaws.EightDegreesAreTooLong | logger-builder.cpp:365-366 | one sensor eight degrees above its base gets a packet of 26 bytes, which is not found again |
| Completeness.CompleteWhen | logger-collection.cpp:1692-1695 | after any packets of one measurement, in any order and with repeats, `completed` holds exactly if the first is there and as many were put as it announces |
| Completeness.BaseComplete | logger-collection.cpp:1692-1695 | for base packets: with none missing it holds, and without repeats only then; with repeats exactly if the first is there and enough were put |
| Completeness.DeltaComplete | logger-builder.cpp:37-51 | for delta packets: as many are announced as all sensors of the measurement need; with a base for each sensor it holds with none missing, and without repeats only then |
| Completeness.HuffmanComplete | logger-builder.cpp:52-56 | for Huffman packets: exactly if the first is there and as many were put as plain packets would be |
| Completeness.RepeatsAreCounted | logger-collection.cpp:1692-1695 | for every measurement with a sensor: the first packet alone, repeated, completes a collection without data |
| Collector.LoggerKosaCollector.Add | logger-collection.cpp:2239-2267 | the nested loops add each item to the first group that matches, or push a group; with it which items still point to the group that holds them, and the packets each group expects |
| Owners.AddAllKosasAdds | logger-collection.cpp:2239-2267 | whatever the vector and the expected packets do, the groups in memory hold the plumes that the simple form gives |
| Owners.AddKeepsOwners | logger-collection.cpp:2244-2262 | whatever is added and however the vector moves: the first group owns all its items, and in every other the item that began it has lost its owner |
| Memory.GroupsRemember | logger-collection.cpp:2239-2267 | after any run in which the years are found, for every group and however the vector moves: it owns exactly the items that came after the last arrival with which it began or the vector moved, the first group all; it expects the last number its plume announced since then, the first group since the last arrival that began another plume and announced packets or moved the vector, or else what that announced |
| Memory.GroupIsRead | logger-collection.cpp:1235-1249 | so a group can be read if and only if it is the first, or no packet with deltas of its plume arrived up to that point |
| Memory.GroupExpects | logger-collection.cpp:2244-2264 | and it expects what its plume announced if and only if the plume announced something after that point, or the group's start there is right: nothing announced before, in the first group the same number |
| Collector.LoggerKosaCollector.Put | logger-collection.cpp:2321-2343 | the packets of a buffer are labelled with the years known before or loaded, and added; a buffer that is an error changes nothing |
| CollectorLaws.CollectorGroups | logger-collection.cpp:2239-2267 | the plumes are the groups of the whole stream by plume and year, in order of first appearance and order within, and no item is lost, if and only if items of year 255 come only for plumes whose first item has it |
| CollectorLaws.AddToGroups | logger-collection.cpp:1889-1918 | one more item is grouped, or dropped exactly if it has year 255 and the plume began with another |
| CollectorLaws.GroupByKeeps | logger-collection.cpp:2239-2267 | grouping at once keeps every item exactly once |
| YearRecovery.StepIsPut | logger-collection.cpp:2321-2343 | a step of a run is one `put` of a packet as the whole buffer |
| YearRecovery.YearFound | logger-collection.cpp:1774-1785 | when all years were right so far, the collector knows a plume's year exactly if the packet of it that arrived first is a first packet |
| YearRecovery.RunIsGrouping | logger-collection.cpp:1210-1226 | packets put one by one, with a loader that is right where it has a record, end up grouped by plume and true year if and only if each packet that is not a first one has a loaded record, or comes from a plume whose earliest packet is a first one, or from year 0 |
| YearRecovery.WithoutLoader | logger-collection.cpp:1210-1226 | without a loader that is so exactly if of each plume not from year 0 a first packet arrives before the others |
| YearRecovery.LateFirstSplits | logger-collection.cpp:1774-1785 | otherwise some plume has a group of year 0 that stays |
| Delivery.OneGroupPerPlume | logger-collection.cpp:2239-2267 | when years are found, each plume has exactly one group, with its packets in their order |
| Delivery.HuffmanThroughCollector | logger-collection.cpp:1228-1284 | of interleaved plumes put one by one, a plume's Huffman packets 1 to k, in any order, are one group; reading it is defined if and only if a packet of that plume came first of all; then the whole measurement gives the stored temperatures exactly if the deltas are lossless and its first packet arrived before its others or samples take one byte |
| Delivery.DeltaThroughCollector | logger-collection.cpp:1228-1284 | the same for plain delta packets, of which the first must also be cut right |
| Delivery.BaseThroughCollector | logger-collection.cpp:918-928 | a plume's base packets are one group, which can always be read and gives the stored temperatures |
| Delivery.SecondPlumeIsLost | logger-collection.cpp:2256-2264 | two loggers with a packet each: the second group cannot be read, and its packet count is expected of the first |
| Delivery.OnePlumeExpects | logger-collection.cpp:2244-2264 | a plume alone has one group, with all its packets, that expects what they announce |
| Delivery.HuffmanFramed | logger-collection.cpp:1678-1690 | every Huffman packet of every measurement, put as a whole buffer, is one packet with all its bytes |
| Delivery.HuffmanPutAndGet | logger-collection.cpp:1678-1705 | a measurement and its base built, each packet put as a buffer and stored unchanged, and read, with the base collection as what the loader of the measurement's plume finds: the stored temperatures of all sensors with a base come back exactly if the deltas are lossless |
| Delivery.DeltaPutAndGet | logger-collection.cpp:1678-1705 | the same for plain delta packets, of which the first must also be cut right; the buffers are split into these packets exactly if the deltas fill the first or have few bits, and otherwise end in an error |
| HexList.ReadHex | logger-parse.cpp:310-343 | takes the next word of pairs, makes progress, and leaves the rest to be read |
| HexList.LoggerParseSQLBaseMeasurement | logger-parse.cpp:345-360 | ends on every string and gives the bytes of its words, odd digits and empty words ignored |
| HexList.RawCommaString | logger-collection.cpp:2130-2146 | the packets as words of two digits for each byte, with separators and parentheses (by character: LowerCase, PrintedAs) |
| HexList.LowerCase | logger-collection.cpp:429-439 | each byte is two characters, high half first, and these are 0 to 9 and a to f only |
| HexList.PrintedAs | logger-collection.cpp:2130-2146 | each packet is between its parentheses, with one separator between two |
| HexList.DigitsOf | logger-parse.cpp:310-343 | digits are 0 to 9, and a to f in either case |
| HexList.PairValue | logger-parse.cpp:310-343 | two characters are read as `strtol` reads them: two digits, the first digit alone, a sign and a digit modulo 256, or 0 |
| HexList.WordOfPrintable | logger-parse.cpp:310-343 | words are of the characters from ! to 127, and all others separate them |
| HexList.ParsedApart | logger-parse.cpp:310-360 | text is read the same whatever blanks, and however many, separate its words |
| HexList.ParsedPrinted | logger-parse.cpp:345-360 | a printed list is read as its packets without the empty ones, for every blank separator |
| HexList.ListRoundTrip | logger-parse.cpp:345-360 | printing and reading gives the list back exactly if it has no empty packet |

## Left out

- HuffmanComplete: states when `completed` holds of Huffman packets as the code computes it, not that it tells the end of a measurement.
- RunIsGrouping: one packet for each `put`, and a loader whose record is of the right plume and year; several plumes in one buffer take the year of the first packet of the buffer.
- LoggerCollection.Put: what the source does after a raw packet (first byte 0), or after a packet without the headers that it reads while storing; it then appends raw bytes to the first item, or uses headers it did not find. The model ends with an error there.
- LoggerKosaCollector.Put: the same; the groups are then unchanged.
- HuffmanThroughCollector: two measurements of one plume share a group, as it is keyed by plume and year; only one is covered.
- HuffmanRoundTrip: of a part of a measurement whose samples take two bytes and whose first packet came late it says only what follows if the temperatures come back.
- HuffmanPutAndGet: a collection that no plume with a loader holds reads delta packets as nothing; the base is given here.
- Big-endian hosts: the packets are modelled with the byte swap of a little-endian host; `SampleCancels` covers the other.
- Measurement headers of plumes and `addHeader`: the groups are modelled by plume, year, items, their owners and the packets expected.
- Expiry of plumes, time stamps, `localtime`: the time is a parameter, split into fields.
- `double2vcc`, `double2vbat`: voltages are given as the bytes stored; the conversions depend on rounding.
- `getTemperature` and the printed values: for delta packets it uses the Huffman offset and disagrees with `get`.
- `BitBufferWriter::pop`: nothing uses it.
- The 32 bit accumulator of `peek` and sizes of 64 bits: at most eight bits are read into it, and sizes are unbounded here.
- Ownership of the loaded base (`baseKosa`), and copies of groups that a caller makes.
- `char` as unsigned: the reader of the hexadecimal list takes characters from 128 on as negative, so as blanks.
- Passport correction, SQL, JSON and text output, the command line tool: no property beyond formatting.
