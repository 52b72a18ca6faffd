# Verified models of the flight stack's protocol, layout and registry code

This project models, in Dafny, the parts of a PX4-based flight stack whose correctness is a matter of protocol
rather than of control: how a log survives a lossy link, how MAVLink frames are packed and found again in a byte
stream, how firmware is flashed, how uORB structs are laid out, how driver instances are kept apart, and three small
algorithms of the tools. `dafny verify dfyconfig.toml` checks everything.

| modules | what they model |
|---|---|
| `UlogReceiver`, `UlogStream`, `UlogExactness`, `UlogSender`, `UlogRuns`, `UlogFile` | ULog streaming over MAVLink: the on-board writer that cuts the log into numbered packets, the ground-side receiver object, and what the file holds, byte by byte, after any loss, repetition and reordering |
| `MavlinkParser`, `MavlinkMessage`, `MavlinkLink`, `MavlinkDamage` | MAVLink 1 framing: the buffer that finds frames in any chunking, packing and unpacking of payloads, a conversation between two endpoints, and which damage is noticed |
| `CrcTheory`, `CrcTable`, `Crc32`, `Firmware` | The firmware image: padding, blocks, and its CRC-32 |
| `UploadTrace`, `UploadSpec`, `UploadSafety`, `UploadAnswers`, `Uploader` | The uploader against an arbitrary device: what it does as a function of the answers, what holds of every trace, which answers make it succeed, and the object that does it |
| `Bootloader`, `BoardLine`, `BoardSafety`, `FirmwareUpload`, `UploadTimings` | The board's bootloader, command by command and byte by byte, what no bytes whatever do to it, and whole uploads to it, with whole answers or with reads at any time |
| `UorbLayout`, `UorbCLayout`, `UorbSorting`, `UorbNesting`, `UorbOrder` | Padding of uORB messages, the struct a C compiler makes of the result, the sort before it, nested messages, and the order of the printed fields |
| `BusWalk`, `BusRegistry`, `BusCommands` | The I2C bus walk, the registry of running I2C/SPI driver instances, changed while it is iterated, and start and stop commands over both |
| `ConsoleFetch` | Waiting for a string on the serial console |
| `RealSums`, `Resample`, `Metrics` | Binning of calibration samples and the tracking error figures, over the reals |
| `Octets`, `Bytes` | Octets and sequence facts shared by the protocol modules |

How the pieces fit together:

* The ULog proof rests on one invariant, `UlogExactness.Tracks`: the receiver either holds exactly the bytes from a
  message start up to the last accepted packet, or it knows that the current message is damaged. Every branch of the
  packet handler is shown to keep it; `UlogRuns` lifts it to whole runs over unbounded packet numbers, so that the
  16-bit wrap-around becomes a theorem about the sequence check rather than an assumption. The sender is not assumed
  to be honest: `UlogSender` models the writer and proves it.
* The MAVLink proof separates framing (for any decoder) from decoding (for any message schema), and joins them in
  `MavlinkLink.ConversationRoundTrip`.
* The CRC proof is generic in the byte type: only "the table is linear and its entries have distinct top bytes" is
  used, and `Crc32` derives both for the literal 256-entry table from the reflected polynomial 0xEDB88320 (the
  polynomial of section 8 of RFC 1952, here started from 0 and without the final complement).
* The uploader object is proved to do exactly what `UploadSpec` says for the answers it gets. Safety and the exact
  conditions for success are then theorems about that function, for every device, mode, revision and boot delay.
* The bootloader is a separate model that takes bytes and sends bytes back. `FirmwareUpload.FlashBoard` runs the
  uploader object, from identification to reboot, on the answers of that bootloader, and shows that the board, given
  the bytes the host wrote and nothing else, would have sent every byte the host read. `UploadTimings` covers every
  other timing: what becomes of the board depends on what is sent only, and every upload that succeeds sends the same
  from the erase on, so whatever was read and when, a finished upload leaves the image in the flash.
* The uORB sizes and positions are compared with an independent definition of C's natural alignment.
* The registry's methods are tied to functions on sequences, about which uniqueness and exact removal are proved.

Objects that the source updates in place are classes here; loops are loops. Device answers, found devices and the
number of polls before a deadline are parameters.

## Where the code and what is promised about it differ

* `check_sequence` is not symmetric at a distance of exactly 32768: ahead without a wrap it accepts, ahead with a wrap
  it rejects. `UlogRuns.CheckSequenceExact` gives the exact condition and `UlogRuns.HalfRangeAmbiguous` an instance.
* Message ids 61 and 63 repeat numeric fields in their format, so decoding such a frame raises an `IndexError`, which
  robust parsing does not catch. `MavlinkLink.NeverBlowsExactly` says for which message maps no bytes
  whatever let an exception escape, and `MavlinkLink.SwarmSetpointEscapes` builds the frame for the row of id 61.
* A text field loses everything from its first NUL and everything past its size. `MavlinkMessage.CanonicalIdentity`
  says exactly which texts survive.
* `crc(padlen)` pads by whole words, so it covers exactly `padlen` bytes if and only if the missing length is a
  non-negative multiple of four (`Firmware.CrcCoversFlash`; `Firmware.CrcMissesByte` is an instance).
* The upload is allowed by the size of the image, but what is programmed is the image padded to 32 bytes. It fits as
  well if and only if the image fits the whole 32-byte units of the flash (`Firmware.PaddedFits`).
* An empty image makes `__program` fail: its progress bar divides by the number of blocks. `Uploader.Uploader.Program`
  reports failure there.
* Erasing does not forget the word held back before: a reboot straight behind a second erase can write the first word
  of the old image into a blank flash. `BoardSafety.EraseThenReboot` is the exact condition.
* The fields of an embedded message are padded in the order in which they are declared, but its own struct is
  generated from the sorted list. Both agree in size if and only if the condition of `UorbSorting.NestedSizeExact`
  holds; `UorbSorting.NestedSizeDiffers` is a message for which they do not (24 against 16 bytes), and
  `UorbNesting.NestingExactly` is the condition for all levels at once.
* An instance stores the device type as `int16_t` and the I2C address as `int8_t`, while the iterator compares with
  unsigned values. A driver whose type or address does not fit is not found again and can be started twice on one bus:
  `BusRegistry.StartTwiceUnique` is the exact condition.
* `_wait_for_string` counts reads, not characters: an empty read inside the target hides it
  (`ConsoleFetch.EmptyReadHidesTarget`). `ConsoleFetch.SeenExactly` is the exact condition.

## Model

| member | source | states |
|---|---|---|
| `UlogRuns.ExactReassembly` | Tools/mavlink_ulog_streaming.py:170-214 | For every honest stream and every run of arrivals that begins with packet 0 and stays in the sequence window, after every packet the file is the 16-byte header followed by exactly, and in order, the messages all of whose packets were accepted, apart from dropout markers; the last of them may still be waiting whole. |
| `UlogRuns.ExactMarkers` | Tools/mavlink_ulog_streaming.py:179-183 | The dropout markers in the file are, in order, one for each gap behind the header section, with the gap's size clamped to 25, and no others; where each stands is `UlogRuns.MarkersPlaced`. |
| `UlogRuns.MarkersPlaced` | Tools/mavlink_ulog_streaming.py:170-202 | Whatever the packets hold: what was in the file before a packet stays its front, the next record is the marker for the packets lost in front of it, if the header section is over and some were, and behind that come only messages, the flushed pending one included. |
| `UlogReceiver.ProcessAppends` | Tools/mavlink_ulog_streaming.py:170-202 | Processing a packet appends the marker, if there were drops behind the header section, and then only messages, on every path. |
| `UlogRuns.DropoutConservation` | Tools/mavlink_ulog_streaming.py:126-167 | For every run in the window, whatever the packets hold and wherever it begins, across any number of 16-bit wraps: accepted packets plus `num_dropouts` equals the highest packet number minus the first plus one, and `last_sequence` is the highest modulo 65536. |
| `UlogRuns.CheckSequenceExact` | Tools/mavlink_ulog_streaming.py:152-167 | The 16-bit check agrees with comparing the unbounded packet numbers (newer or not, and how many are missing) if and only if the distance is unambiguous. |
| `UlogRuns.HalfRangeAmbiguous` | Tools/mavlink_ulog_streaming.py:164-167 | A packet exactly 32768 ahead across a wrap is taken for an old one. |
| `UlogRuns.ReceiveDecides` | Tools/mavlink_ulog_streaming.py:126-149 | At an unambiguous distance a packet is processed exactly if it exceeds every accepted one, with the true number of missing packets; otherwise nothing changes. |
| `UlogRuns.RunTracks` | Tools/mavlink_ulog_streaming.py:106-202 | Every run keeps the receiver's invariant, the dropout count, the section flag and the due markers, relative to the set of maxima of the arrivals. |
| `UlogRuns.LosslessIdentity` | Tools/mavlink_ulog_streaming.py:193-214 | With no losses, file plus pending bytes equals all bytes received, after every packet. |
| `UlogFile.StreamToFile` | Tools/mavlink_ulog_streaming.py:106-214 | Feeding any packets to a fresh receiver object leaves the file and the pending bytes that the specification of the run describes, and raises exactly when it does. For an honest stream in the window the file parses, behind the 16-byte header, into whole ULog messages with nothing left over: the marked ones are, one for each due gap and in order, five bytes of size 2, type 'O' and a duration of ten milliseconds for each packet lost, at most 25; the others are the messages whose every packet was accepted. |
| `UlogFile.FileExplained` | Tools/mavlink_ulog_streaming.py:170-214 | The same for the run itself, at every point: the file is the header and whole messages, among them the due markers byte by byte and otherwise exactly the messages whose every packet was accepted. |
| `UlogFile.FileGrows` | Tools/mavlink_ulog_streaming.py:179-202 | Whatever the packets hold: a packet appends to the file the five marker bytes if the header section is over and packets were lost in front of it, with their duration, and then only messages. |
| `UlogRuns.WriterToFile` | src/modules/logger/log_writer_mavlink.cpp:88-185 | End to end: whatever subset of the packets the writer object published gets through in the window, the receiver's messages are exactly the ones whose packets were all accepted. |
| `UlogExactness.ProcessTracks` | Tools/mavlink_ulog_streaming.py:170-202 | Every packet behind the first keeps the reassembly invariant, with or without a gap before it, and appends the due dropout marker and no other. |
| `UlogExactness.ResynchroniseTracks` | Tools/mavlink_ulog_streaming.py:185-191 | Flushing and resynchronising after a gap keeps the invariant: a whole pending message is delivered, damaged ones are not, and the run goes on at the announced message start. |
| `UlogExactness.ContinueTracks` | Tools/mavlink_ulog_streaming.py:193-202 | Extending, completing and parsing without a gap keeps the invariant. |
| `UlogExactness.FirstTracks` | Tools/mavlink_ulog_streaming.py:172-177 | The first packet establishes the invariant: the header is the stream's first 16 bytes and parsing starts behind it. |
| `UlogStream.ParseStretch` | Tools/mavlink_ulog_streaming.py:205-214 | Parsing the stream from the start of any message up to any byte yields exactly the messages that end by then and leaves the front of the next. |
| `UlogReceiver.ParseMessagesSplit` | Tools/mavlink_ulog_streaming.py:205-214 | Carrying the remainder over an arbitrary cut of the data gives the messages and the remainder of one call on the whole. |
| `UlogReceiver.ParseMessagesConserves` | Tools/mavlink_ulog_streaming.py:205-214 | The written messages followed by the remainder are the data. |
| `UlogReceiver.ParseMessagesWhole` | Tools/mavlink_ulog_streaming.py:208-214 | Only whole messages are written, and less than one is left. |
| `UlogReceiver.MavlinkLogStreaming.WriteUlogMessages` | Tools/mavlink_ulog_streaming.py:205-214 | Appends exactly the whole messages at the front of the data to the file and returns the rest. |
| `UlogReceiver.MavlinkLogStreaming.ProcessStreamedUlogData` | Tools/mavlink_ulog_streaming.py:170-202 | The new file, pending bytes and flags are those of the specification; raises exactly on a first packet under 16 bytes. |
| `UlogReceiver.MavlinkLogStreaming.ReadMessage` | Tools/mavlink_ulog_streaming.py:125-149 | Acknowledges every LOGGING_DATA_ACKED packet, repeated ones included, and processes a packet exactly if the sequence check calls it newer. |
| `UlogSender.LogWriterMavlink.WriteMessage` | src/modules/logger/log_writer_mavlink.cpp:88-116 | Appends a message of any length, splitting it over as many packets as it needs, and keeps the packets honest; every packet it publishes is full, that is, has 249 bytes; it fails exactly when logging stops, because the last packet was awaited and not acknowledged; nothing published changes. |
| `UlogSender.LogWriterMavlink.PublishMessage` | src/modules/logger/log_writer_mavlink.cpp:130-185 | Publishes the buffer under the next 16-bit sequence number with the offset of its first message start, and empties it; in reliable transfer a missing acknowledgement stops the log. |
| `UlogSender.LogWriterMavlink.SetNeedReliableTransfer` | src/modules/logger/log_writer_mavlink.cpp:118-128 | Leaving reliable transfer first publishes what is buffered, still reliably, and logging goes on exactly if that is acknowledged; the packets stay honest. |
| `UlogSender.LogWriterMavlink.StartLog` | src/modules/logger/log_writer_mavlink.cpp:65-80 | Starts with an empty buffer and sequence number 0. |
| `UlogSender.SenderHonest` | src/modules/logger/log_writer_mavlink.cpp:88-185 | Whatever the writer has published is an honest stream, numbered modulo 65536: 1 to 249 bytes for each packet, at least 16 in the first, and every offset names the first message start in its packet, or 255 exactly if there is none. |
| `MavlinkLink.ConversationRoundTrip` | Tools/mavlink_px4.py:2259-2330 | Any list of packable messages sent from a fresh endpoint, received in any chunking by a fresh robust receiver, arrives as the same messages in order, the k-th with seq k mod 255, with no bad data and an empty buffer. |
| `MavlinkLink.TransmissionArrives` | Tools/mavlink_px4.py:101-111 | The same for one buffer and any starting sequence number. |
| `MavlinkLink.SendAll` | Tools/mavlink_px4.py:2259-2265 | Sending one by one through the endpoint object writes exactly that transmission. |
| `MavlinkLink.ReceiveAll` | Tools/mavlink_px4.py:2319-2330 | For every message map: feeding chunk by chunk to the endpoint object raises exactly if some item of the run makes decoding raise; otherwise it yields the specified items and buffer, and the packet and error counters grow by the good and the bad items. |
| `MavlinkLink.Converse` | Tools/mavlink_px4.py:2259-2330 | Two fresh endpoint objects: everything one sends, cut in any way, the other receives in order, with the packet counter at the number sent, no receive error, no exception and an empty buffer, whatever other rows the message map has. |
| `MavlinkLink.MAVLink.Send` | Tools/mavlink_px4.py:2259-2265 | Appends the frame with the current sequence number and advances it modulo 255; raises exactly on a message that cannot be packed, and then changes nothing. The order map plays no part. |
| `MavlinkLink.MAVLink.ParseChar` | Tools/mavlink_px4.py:2274-2317 | Returns the next item exactly if the buffer holds one, takes exactly its bytes off the buffer, and counts a good one as a packet and a bad one as an error; raises exactly on a frame whose order map does not fit. |
| `MavlinkLink.MAVLink.ParseBuffer` | Tools/mavlink_px4.py:2319-2330 | Returns all items in the buffer and the new data, in order, and leaves the rest; raises exactly if one of them makes decoding raise, having then handled exactly the items before the first such one. |
| `MavlinkLink.SwarmSetpointEscapes` | Tools/mavlink_px4.py:2165-2165 | With the format, order map and pack order of id 61, packing always raises, and a frame with a zero payload and the right checksum passes every check and makes robust parsing raise. |
| `MavlinkLink.NeverBlowsExactly` | Tools/mavlink_px4.py:2297-2316 | No buffer whatever makes robust parsing raise if and only if every type whose payload fits a frame has an order map that fits its format. |
| `MavlinkParser.ChunkingIrrelevant` | Tools/mavlink_px4.py:2274-2330 | For any decoder, two chunkings of the same bytes give the same items and the same leftover buffer. |
| `MavlinkParser.DrainSplit` | Tools/mavlink_px4.py:2319-2330 | Parsing a and then b gives the items and the leftover of parsing a + b. |
| `MavlinkParser.FeedBytesIsDrain` | Tools/mavlink_px4.py:2274-2317 | Calling `parse_char` once per byte gives the same items and leftover as one call on the whole. |
| `MavlinkParser.OneByteOneItem` | Tools/mavlink_px4.py:2274-2317 | One more byte completes at most one item, and that one then takes the whole buffer. |
| `MavlinkParser.FeedConserves` | Tools/mavlink_px4.py:2274-2317 | The raw bytes of all items, good or bad, followed by the buffer are all bytes received. |
| `MavlinkParser.DrainExhausts` | Tools/mavlink_px4.py:2319-2330 | The drain loop stops only when the buffer holds no further item. |
| `MavlinkParser.FrameInFront` | Tools/mavlink_px4.py:2297-2316 | A complete frame at the front is taken as one item, whatever follows. |
| `MavlinkMessage.DecodeFrame` | Tools/mavlink_px4.py:2332-2388 | Decoding the frame of a message gives back its id, sequence number, system, component and all field values in declaration order; it rests on the order map inverting the pack order and on both CRC spans agreeing. |
| `MavlinkMessage.FrameParts` | Tools/mavlink_px4.py:101-111 | Every part of the packed frame is where decoding looks for it. |
| `MavlinkMessage.SoundExactly` | Tools/mavlink_px4.py:2360-2372 | Decoding raises an `IndexError` for no bytes if and only if all order maps fit; for each other type there is a frame that does it. |
| `MavlinkMessage.DecodeMessage` | Tools/mavlink_px4.py:2332-2388 | The imperative decoder, with its checks in the source's order and its in-place reordering, computes the specified result. |
| `MavlinkMessage.Reorder` | Tools/mavlink_px4.py:2366-2372 | Rewriting the value list in place by the order map gives the arranged list, and raises exactly if an index is missing. |
| `MavlinkMessage.PayloadRoundTrip` | Tools/mavlink_px4.py:2360-2380 | Unpacking a packed payload gives every value back in its canonical form. |
| `MavlinkMessage.CanonicalIdentity` | Tools/mavlink_px4.py:2208-2216 | A value is its own canonical form if and only if it is a number, or a text without NUL that fits its field. |
| `MavlinkDamage.DecodesExactly` | Tools/mavlink_px4.py:2332-2388 | Bytes decode to a message if and only if prefix, length byte, message type and payload size are right, the last two bytes, low byte first, are the checksum of everything behind the prefix and of the type's extra byte, and the order map has exactly one entry in range for each format code; they raise an `IndexError` exactly if only the order map is wrong. |
| `MavlinkDamage.DecodedFields` | Tools/mavlink_px4.py:2360-2387 | A decoded message has the header's bytes, and field i is unpacked from exactly the payload bytes that the order map names. |
| `MavlinkDamage.DamagedChecksum` | Tools/mavlink_px4.py:2345-2358 | A frame whose last two bytes are changed is bad data. |
| `MavlinkDamage.DamagedByte` | Tools/mavlink_px4.py:2345-2358 | With a checksum update that is injective in the byte and in the sum, changing any one byte of a good frame, except the message type, makes it bad data. |
| `MavlinkDamage.FrameBytes` | Tools/mavlink_px4.py:101-111 | The header bytes of a packed frame and its checksum, byte by byte, the type's extra byte included. |
| `MavlinkDamage.FrameValue` | Tools/mavlink_px4.py:101-111 | Each payload value of a packed frame is, at its own offset, the field that the pack order names, packed. |
| `MavlinkDamage.PackedBytes` | Tools/mavlink_px4.py:2360-2363 | Numbers are packed low byte first, negative ones in two's complement, floats as they are, and text cut to its size or filled up with NUL. |
| `MavlinkDamage.PackableExactly` | Tools/mavlink_px4.py:101-111 | Packing raises nothing if and only if every packed value is one that some bytes of its size unpack to (or any text), and the payload's length fits one byte. |
| `MavlinkDamage.FrameBehindNoise` | Tools/mavlink_px4.py:2274-2316 | Bytes that are no prefix are reported one by one, and the frame behind them is found, whatever they are. |
| `CrcTable.TableIsPolynomial` | Tools/px_uploader.py:95-127 | Each of the 256 literal entries is eight steps of dividing its index by the reflected polynomial 0xEDB88320. |
| `Crc32.TableCrcIsPolynomialDivision` | Tools/px_uploader.py:146-150 | The table CRC equals bit-by-bit polynomial division, for all data and states. |
| `Crc32.TableCrcDetectsBursts` | Tools/px_uploader.py:146-150 | Data of equal length that differ only inside some four consecutive bytes never have the same CRC, from any common state. |
| `CrcTheory.StepInjective` | Tools/px_uploader.py:146-150 | Distinct top bytes in the table make each step injective in the state. |
| `CrcTheory.FourBytesInjective` | Tools/px_uploader.py:146-150 | From a common state, two different groups of four bytes never lead to the same state. |
| `Firmware.FirmwareCrcDetectsBursts` | Tools/px_uploader.py:152-156 | Images that differ only inside some four consecutive bytes have different `crc(padlen)`, for every length, position and pad length. |
| `Firmware.CrcCoversFlash` | Tools/px_uploader.py:152-156 | `crc(padlen)` sums exactly `padlen` bytes if and only if `padlen` is at least the image length and the difference is a multiple of four. |
| `Firmware.CrcMissesByte` | Tools/px_uploader.py:152-156 | For 32 bytes and a flash of 37 the sum stops after 36. |
| `Firmware.PaddedFits` | Tools/px_uploader.py:139-141 | The padded image fits if and only if the image fits the whole 32-byte units of the flash; for a flash of whole units, if and only if the image fits. |
| `Firmware.PadImage` | Tools/px_uploader.py:139-141 | The image is extended by 0xff bytes to the next multiple of 32, and by no more. |
| `Firmware.ComputeCrc` | Tools/px_uploader.py:152-156 | The two loops compute the CRC of the image followed by its 0xff padding words. |
| `Firmware.SplitLenExact` | Tools/px_uploader.py:485-486 | The blocks concatenate to the image, each is non-empty and within the limit, and only the last is short. |
| `Firmware.BlocksAreWords` | Tools/px_uploader.py:485-517 | For an image of whole words every block is 4 to 252 bytes long and a multiple of 4. |
| `UploadSafety.UploadSafe` | Tools/px_uploader.py:573-671 | For every sequence of device answers, mode, revision and delay: CHIP_ERASE is sent only if the board id matches or force is set, and only if the image fits; REBOOT only behind an acknowledged erase, one acknowledgement for every block, a passed verification and, if a boot delay is set, its acknowledgement; an upload that finishes ends with REBOOT, acknowledged from revision 3 on. |
| `UploadSafety.ProgrammingComplete` | Tools/px_uploader.py:489-517 | In both modes programming succeeds only after sending exactly the blocks and reading exactly one INSYNC/OK for each, with never more than 512 bytes of acknowledgements outstanding. |
| `UploadSafety.VerifyingEvents` | Tools/px_uploader.py:520-548 | Verification succeeds only with every block read back equal and acknowledged (revision 2), or with the CRC of the image over the flash size (3 to 5). |
| `UploadSafety.DelayingEvents` | Tools/px_uploader.py:550-554 | Setting a boot delay succeeds only if the delay is a signed byte and its command is acknowledged. |
| `UploadAnswers.UploadExactly` | Tools/px_uploader.py:573-671 | In every mode and for every revision and delay, the upload finishes if and only if the package is suitable and fits and, read by read, the checks are answered and accepted and behind them some poll before the deadline is the first acknowledged one, the blocks are acknowledged, the verification passes, and delay and reboot are acknowledged. |
| `UploadAnswers.ChecksExactly` | Tools/px_uploader.py:576-656 | For a package that is suitable and fits, the checks pass if and only if, from revision 4 on, each of the 48 memory words is answered and acknowledged, whatever serial number and chip do; from revision 5 on, behind what those took, a four-byte length, a description and an acknowledgement follow, and it is not the case that the description has exactly one comma, the flash is larger than the package's maximum and force is not set; before revision 5, a package of more than 1032192 bytes for board type 9 has force. |
| `UploadAnswers.ChecksReads` | Tools/px_uploader.py:576-656 | Checks that pass leave exactly the reads behind them: 144 for the memory words, as many as serial number and chip take until the first that is not answered, and four for the description. |
| `UploadAnswers.ErasedExactly` | Tools/px_uploader.py:573-656 | The erase command is sent if and only if the package is for the board or forced, fits, respects the silicon limit, and the checks are answered as above. |
| `UploadAnswers.LargerBoardRefused` | Tools/px_uploader.py:625-642 | From revision 5 on, without force, a board whose description has exactly one comma and whose flash is larger than the package's maximum is not erased, whatever else it answers, and the upload raises (or was refused as unsuitable before). |
| `UploadAnswers.DescriptionHarmless` | Tools/px_uploader.py:625-642 | If the flash is not larger than the package's maximum, or force is set, no description stops the upload. |
| `UploadAnswers.EraseExactly` | Tools/px_uploader.py:411-434 | The erase succeeds if and only if some poll before the deadline reads INSYNC/OK and none before it reads that or a bad-silicon report. |
| `UploadAnswers.SilentPolls` | Tools/px_uploader.py:318-337 | Any number of polls that time out count as busy and take nothing of what comes later. |
| `UploadAnswers.ProgramExactly` | Tools/px_uploader.py:489-517 | Programming succeeds if and only if the image is not empty and the reads deliver one INSYNC/OK for each block, pair by pair, or in windowed mode in one read for each 256 blocks and one for the remainder. |
| `UploadAnswers.VerifyExactly` | Tools/px_uploader.py:520-548 | Revision 2 passes if and only if the command and every equal block read back are acknowledged; later ones if and only if the reported CRC is the image's and acknowledged. |
| `UploadAnswers.IdentifyExactly` | Tools/px_uploader.py:557-570 | Identification succeeds if and only if all five exchanges are answered and the revision is from 2 to 5. |
| `UploadAnswers.FinishExactly` | Tools/px_uploader.py:665-670 | Delay and reboot succeed if and only if the delay fits its byte and is acknowledged, and from revision 3 on the reboot is acknowledged too. |
| `UploadAnswers.DelayByteIs` | Tools/px_uploader.py:550-554 | A boot delay travels as the byte of a signed number. |
| `Uploader.Uploader.Upload` | Tools/px_uploader.py:573-671 | The object sends, reads and returns exactly what the specification says for the answers it gets, not-suitable exactly for a foreign board without force; with the safety properties of its trace, and with the erase command in it exactly if package and answers entitle to it. |
| `Uploader.Uploader.Guards` | Tools/px_uploader.py:576-656 | The memory words are asked for from revision 4 on and must be answered; serial number and chip may fail; the description is checked from revision 5 on and the silicon limit before; accepted exactly as `UploadAnswers.ChecksExactly` says, read by read. |
| `Uploader.Uploader.Erase` | Tools/px_uploader.py:411-434 | The erase command, then polls until an acknowledgement, a bad-silicon report or the deadline. |
| `Uploader.Uploader.Program` | Tools/px_uploader.py:489-517 | The loop with its window counter sends and reads exactly what the specification says, in both modes, and leaves the window empty on success. |
| `Uploader.Uploader.AckSyncWindow` | Tools/px_uploader.py:293-306 | Reads `count` bytes at once and succeeds if and only if they are `count / 2` INSYNC/OK pairs. |
| `Uploader.Uploader.GetSync` | Tools/px_uploader.py:276-288 | Takes one read, and a second only behind INSYNC; succeeds if and only if they are INSYNC and OK. |
| `Uploader.Uploader.TrySync` | Tools/px_uploader.py:318-337 | In sync exactly on INSYNC and OK, bad silicon exactly on INSYNC and BAD_SILICON_REV. |
| `Uploader.Uploader.Identify` | Tools/px_uploader.py:557-570 | On success the revision is from 2 to 5 and all four fields hold what the device reported for them. |
| `UploadTrace.ProgressDone` | Tools/px_uploader.py:489-517 | Once all blocks are sent and no acknowledgement is outstanding, the exchange is a complete programming of exactly these blocks. |
| `UploadTrace.SafeRebooted` | Tools/px_uploader.py:475-482 | A trace with one erase and one reboot is safe at every prefix if what precedes the reboot justifies it. |
| `Bootloader.FlashedExactly` | platforms/nuttx/src/bootloader/common/bl.c:743-896 | On an identified board every block of a padded image is accepted if and only if the image fits; then the CRC the board computes is the uploader's, and booting leaves the image followed by 0xff. |
| `Bootloader.GenerateTable` | platforms/nuttx/src/bootloader/common/bl.c:587-616 | The table generated on first use holds, for every index, its eight division steps. |
| `Bootloader.GeneratedIsConstant` | platforms/nuttx/src/bootloader/common/bl.c:587-616 | The bootloader's generated table and the uploader's literal one are the same. |
| `Bootloader.SumFlash` | platforms/nuttx/src/bootloader/common/bl.c:871-896 | Summing word by word, with the held-back word in place of the first, is the CRC of the completed flash. |
| `Bootloader.ProgAllHolds` | platforms/nuttx/src/bootloader/common/bl.c:796-864 | Programming blocks in turn appends them behind what is held, all accepted if and only if they fit. |
| `BoardSafety.NothingBeforeErase` | platforms/nuttx/src/bootloader/common/bl.c:618-896 | Whatever bytes a board receives after reset: its flash changes only behind an erase command received while it was in sync and identified. |
| `BoardSafety.FlashChanged` | platforms/nuttx/src/bootloader/common/bl.c:743-1065 | Only an erase by a known host, a block that fits, and a reboot with everything received change the flash. |
| `BoardSafety.HalfImageNeverStarts` | platforms/nuttx/src/bootloader/common/bl.c:743-1065 | From an erase on, whatever bytes follow, the first word of the flash stays blank until a reboot command is accepted on a board that is in sync, identified, programmed and summed. |
| `BoardSafety.FlagsEarned` | platforms/nuttx/src/bootloader/common/bl.c:660-896 | Each of these flags is set only by its own command. |
| `BoardSafety.RefusedForgets` | platforms/nuttx/src/bootloader/common/bl.c:1084-1088 | Whatever is refused leaves flash, address and held-back word, and clears all flags. |
| `BoardSafety.EraseThenReboot` | platforms/nuttx/src/bootloader/common/bl.c:743-1065 | A reboot straight behind an erase leaves the flash blank if and only if no word is held back, or nothing was programmed or summed before the erase. |
| `BoardSafety.SyncOnTheLine` | platforms/nuttx/src/bootloader/common/bl.c:667-681 | GET_SYNC byte by byte: 0x21 0x20 is answered by 0x12 0x10. |
| `BoardSafety.EraseOnTheLine` | platforms/nuttx/src/bootloader/common/bl.c:743-784 | CHIP_ERASE byte by byte: 0x23 0x20 is answered by 0x12 0x10 and blanks the flash for a known host, and otherwise by 0x12 0x13, which changes nothing but makes the host start over. |
| `BoardSafety.CrcOnTheLine` | platforms/nuttx/src/bootloader/common/bl.c:871-896 | GET_CRC byte by byte: 0x29 0x20 is answered by the four bytes of the sum, 0x12 and 0x10. |
| `FirmwareUpload.FlashBoard` | Tools/px_uploader.py:557-671 | The uploader object, in either mode, with whole answers and the board busy erasing for any number of polls before the deadline, identifies the modelled bootloader and finishes the upload; every byte it read the board would have sent for the bytes written before; nothing is left unread; and the flash holds the padded image followed by 0xff. Other timings are in `UploadTimings.AnyTiming`. |
| `FirmwareUpload.FlashRaw` | Tools/px_uploader.py:139-141 | The same from the unpadded image: on a flash of whole 32-byte units, whatever the size guard lets through is flashed; what is programmed is the image followed by 0xff bytes, and so is the whole flash in the end. |
| `UploadTimings.AnyTiming` | Tools/px_uploader.py:557-671 | For every board whose flash the padded image fits and every session and sequence of reads: if identification and upload succeed, and the modelled board could have sent what was read when it was read, the flash holds the image followed by 0xff and no command is half sent. What may be left is unread bytes, because the answers about serial number and chip may be ignored. |
| `UploadTimings.FlashAtAnyTime` | Tools/px_uploader.py:557-671 | The same for the uploader object, whatever it reads: if it finishes and the modelled board can have met its whole trace, the board holds the image followed by 0xff. |
| `UploadTimings.RunIsFeed` | platforms/nuttx/src/bootloader/common/bl.c:630-690 | A board that has met a trace is left with the flash, the state and the half-sent command that the written bytes alone make of it, whenever its answers were read. |
| `FirmwareUpload.ProgrammingServed` | platforms/nuttx/src/bootloader/common/bl.c:796-864 | In both modes the board, fed the bytes of the blocks, sends the acknowledgements that the host reads, window by window or one by one, and ends with all blocks programmed. |
| `BoardLine.RunBlock` | platforms/nuttx/src/bootloader/common/bl.c:796-864 | A block in four writes is one command to the board, answered behind whatever is still unread. |
| `BoardLine.RunQuestion` | platforms/nuttx/src/bootloader/common/bl.c:692-734 | A command answered by data lets the host read the data and then INSYNC/OK, and nothing else. |
| `BoardLine.WordDigits` | platforms/nuttx/src/bootloader/common/bl.c:559-563 | A number is sent as four bytes, the lowest first. |
| `UorbLayout.AddPaddingBytes` | msg/tools/px_generate_uorb_topic_helper.py:156-204 | The loop that inserts into the list it walks computes the specified size, end padding and padded list, recursively for embedded messages. |
| `UorbLayout.SizeIsTotal` | msg/tools/px_generate_uorb_topic_helper.py:156-204 | The size is a multiple of 8 and the sum of the resulting fields. |
| `UorbLayout.EmbeddedStartsAligned` | msg/tools/px_generate_uorb_topic_helper.py:175-190 | Every embedded field starts at a multiple of 8. |
| `UorbLayout.ErasingPadsRestores` | msg/tools/px_generate_uorb_topic_helper.py:156-204 | Every inserted padding has 1 to 7 bytes, and erasing the paddings gives back the original list. |
| `UorbLayout.PaddingIdempotent` | msg/tools/px_generate_uorb_topic_helper.py:156-204 | A second run adds nothing and gives the same size. |
| `UorbCLayout.StructAgrees` | msg/tools/px_generate_uorb_topic_helper.py:138-204 | For a list sorted by descending size with embedded types last, at every nesting level, the compiler's struct size equals the computed one. |
| `UorbCLayout.NoImplicitPadding` | msg/tools/px_generate_uorb_topic_helper.py:138-204 | In such a padded list every packed offset is already naturally aligned, and the compiler adds no padding of its own. |
| `UorbNesting.MadeAllSorted` | msg/templates/uorb/msg.h.em:97-104 | Whatever the order in which messages declare their fields, at every level, the lists that structs are printed from are of the kind the layout theorems ask for. |
| `UorbOrder.SortExactly` | msg/templates/uorb/msg.h.em:97-99 | The sorted list is the one list of descending sizes in which the fields of each size are, in order, those of the declaration. |
| `UorbOrder.SortStable` | msg/templates/uorb/msg.h.em:97-99 | Sorting keeps every field, as often as it is declared, and fields of one size in their order. |
| `UorbOrder.PrintedOrder` | msg/templates/uorb/msg.h.em:97-104 | The struct printed for a message, paddings aside, has its fields by descending size and otherwise in the order of declaration, and so has what the compiler sees at every level. |
| `UorbOrder.PaddingsNumbered` | msg/tools/px_generate_uorb_topic_helper.py:178-204 | The paddings of a message are numbered from 0 on, the one at the end included, so that no two members have one name. |
| `UorbOrder.HeadersFree` | msg/tools/px_generate_uorb_topic_helper.py:168-192 | Header fields, which are not printed, take no room. |
| `UorbSorting.SizeByRuns` | msg/tools/px_generate_uorb_topic_helper.py:156-204 | The size of any list is its embedded bytes plus each run of built-ins rounded up to 8. |
| `UorbSorting.NestedSizeExact` | msg/tools/px_generate_uorb_topic_helper.py:186-190 | The size of an embedded message, which is not sorted, equals the size of its own sorted struct if and only if rounding its runs separately costs nothing. |
| `UorbSorting.NestedSizeDiffers` | msg/tools/px_generate_uorb_topic_helper.py:186-190 | A message for which the two sizes are 24 and 16. |
| `UorbNesting.NestingExactly` | msg/tools/px_generate_uorb_topic_helper.py:186-190 | Every embedded type, at every level, is measured as the compiler makes its own sorted and padded struct if and only if, for every one of them, rounding its runs separately costs nothing. |
| `UorbNesting.NestedLayoutAgrees` | msg/templates/uorb/msg.h.em:97-104 | Then, in the struct printed for a message declared in any order, every field sits at its packed offset, the compiler adds nothing, and the sizes are equal; the converse is `UorbNesting.NestedLayoutExactly`. |
| `UorbNesting.NestedLayoutExactly` | msg/templates/uorb/msg.h.em:97-104 | For a message without empty arrays of structs, all of that holds if and only if the runs fit in every embedded type, at every level. |
| `UorbNesting.NestedSizesExactly` | msg/tools/px_generate_uorb_topic_helper.py:138-204 | The generator's size of any message is never below that of the struct the compiler makes, and equal to it if and only if the runs fit in every embedded type of which there are elements, at every level. |
| `BusWalk.I2CBusIterator.Next` | platforms/common/i2c.cpp:46-86 | Stops at the next selected bus of the table, or at its end exactly if none is left. |
| `BusWalk.WalkExact` | platforms/common/i2c.cpp:46-86 | The walk visits exactly the buses in use that the filter and the requested number select. |
| `BusRegistry.AlwaysUnique` | platforms/common/i2c_spi_buses.cpp:467-585 | Over every sequence of starts and stops whose types and addresses fit the signed fields they are stored in, no two running instances share module, bus option, bus and type (and address on I2C); what happens to the other keys is `BusRegistry.StartTwiceUnique`. |
| `BusRegistry.StartTwiceUnique` | platforms/common/i2c_spi_buses.cpp:467-514 | Two start commands for one bus leave one instance if and only if type and address fit the signed fields they are stored in. |
| `BusRegistry.StoredSigned` | platforms/common/include/px4_platform_common/i2c_spi_buses.h:66-79 | An instance stores type and address as the signed numbers with the same low bits. |
| `BusRegistry.StopAll` | platforms/common/i2c_spi_buses.cpp:565-585 | Terminates and removes exactly the instances of the module and type, keeping the others in order, although it removes while iterating; reports running exactly if it removed one. |
| `BusRegistry.StopAllExactly` | platforms/common/i2c_spi_buses.cpp:249-266 | A stop on all buses takes away exactly the instances of the module and device type and keeps the others in order. |
| `BusRegistry.WithoutExact` | platforms/common/i2c_spi_buses.cpp:249-266 | What remains after such a stop is exactly what does not match. |
| `BusRegistry.StopOnExact` | platforms/common/i2c_spi_buses.cpp:268-300 | A stop bus by bus removes exactly the instances that match on a visited bus. |
| `BusRegistry.StartOnExact` | platforms/common/i2c_spi_buses.cpp:478-514 | A start adds exactly the instances for visited buses where a device answers and none was running. |
| `BusRegistry.RunningOnSpi` | platforms/common/i2c_spi_buses.cpp:283-296 | On SPI a driver counts as running whatever the address of the instance found. |
| `BusCommands.StartsExactly` | platforms/common/i2c.cpp:46-86 | On a board where every device answers, an I2C start leaves running what was, and one instance for each used bus of the board's table that the command selects and where none was. |
| `BusCommands.StopsExactly` | platforms/common/i2c.cpp:46-86 | An I2C stop removes exactly the matching instances on the used buses that the command selects. |
| `BusCommands.StartReaches` | platforms/common/i2c_spi_buses.cpp:424-437 | An internal start adds an instance on a bus if and only if the board has it as a used internal bus of its table, it was requested (or -1), a device answers there and the driver was not running there; an external start likewise on the external side. |
| `BusCommands.StopReaches` | platforms/common/i2c_spi_buses.cpp:424-437 | An internal stop removes exactly the driver on the used internal buses that were requested, an external one on the external buses. |
| `BusCommands.StartThenStop` | platforms/common/i2c_spi_buses.cpp:467-585 | A stop undoes a start of the same command on buses where nothing of its key was running. |
| `BusCommands.StartOnBoard` | platforms/common/i2c_spi_buses.cpp:224-238 | The iterator fed by the bus walk object starts drivers on exactly the walk's buses: in terms of the board's table, as `BusCommands.StartReaches` says. |
| `BusCommands.StopOnBoard` | platforms/common/i2c_spi_buses.cpp:224-238 | The iterator fed by the bus walk object stops drivers on exactly the walk's buses: in terms of the board's table, as `BusCommands.StopReaches` says. |
| `BusRegistry.ModuleStop` | platforms/common/i2c_spi_buses.cpp:565-585 | The registry is the stop command's result on the old one, and success is reported exactly if something was removed. |
| `BusRegistry.ModuleStart` | platforms/common/i2c_spi_buses.cpp:467-562 | A driver is added on exactly the visited buses where none matches and a device answers; success is reported exactly if one was added. |
| `BusRegistry.BusInstanceIterator.Next` | platforms/common/i2c_spi_buses.cpp:245-300 | Advances to the first matching instance behind the current one, or to the next bus and its matching instance. |
| `BusRegistry.BusInstanceIterator.RemoveInstance` | platforms/common/i2c_spi_buses.cpp:324-335 | Removes the current instance and steps back to the one before it. |
| `BusRegistry.BusInstanceIterator.RunningInstancesCount` | platforms/common/i2c_spi_buses.cpp:302-313 | The number of running instances of the module. |
| `ConsoleFetch.WaitForString` | Tools/fetch_file.py:51-64 | Returns after the first read that completes the target, not before and never after more than the allowed reads; the result followed by the target is all text consumed; raises if and only if the target is not seen in the allowed reads. |
| `ConsoleFetch.FirstOccurrence` | Tools/fetch_file.py:51-64 | With no empty read, that is the first occurrence of the target in the text, and the result is exactly the text before it. |
| `ConsoleFetch.SeenExactly` | Tools/fetch_file.py:56-61 | For all reads, the target is noticed if and only if the text so far ends with it and none of the last reads it spans was empty. |
| `ConsoleFetch.EmptyReadHidesTarget` | Tools/fetch_file.py:56-61 | A target that is in the text but never noticed. |
| `ConsoleFetch.ExecCmd` | Tools/fetch_file.py:66-70 | Returns exactly the text between the first echo of the command and the first prompt behind it, and consumes nothing past that prompt; raises if and only if the echo does not end within the allowed reads or the prompt not within as many behind it. |
| `Resample.ResampleWithDeltaX` | Tools/process_sensor_caldata.py:36-65 | Raises exactly on no samples or too few values; otherwise one point for each occupied interval, with the mean of its X and Y values; count-weighted X and Y sums equal those of the input; X strictly increases. |
| `Resample.Accumulate` | Tools/process_sensor_caldata.py:42-55 | No index leaves 0..1999, and each bin ends with the sums and the count of exactly its samples. |
| `Resample.BinEdges` | Tools/process_sensor_caldata.py:46-52 | Every sample lies in the interval of its bin, also when all samples are equal. |
| `Resample.EdgesSpan` | Tools/process_sensor_caldata.py:36-52 | The 2000 intervals, all of one width, reach from the smallest to the largest sample. |
| `Resample.MeansIncrease` | Tools/process_sensor_caldata.py:57-65 | The means of the occupied bins strictly increase. |
| `Resample.MeansConserve` | Tools/process_sensor_caldata.py:57-65 | Dropping empty bins and dividing by the counts changes no weighted sum. |
| `Metrics.MetricsLaws` | data_P600/scripts/export_p600_real_mat.py:31-42 | For every non-empty trajectory position_mean² ≤ position_rms² ≤ position_max², position_rms² is the sum of the squared axis RMS values, and on every axis mean ≤ RMS ≤ maximum ≤ position_max. |
| `Metrics.MetricsOrdered` | data_P600/scripts/export_p600_real_mat.py:36-40 | Mean ≤ RMS ≤ maximum; mean and RMS agree if and only if the error norm is constant. |
| `Metrics.RmsByAxis` | data_P600/scripts/export_p600_real_mat.py:37-42 | The squared RMS splits over the axes, for any number of axes. |
| `Metrics.VarianceIdentity` | data_P600/scripts/export_p600_real_mat.py:36-40 | The mean square exceeds the squared mean by exactly the mean squared deviation. |

## Left out

- The ESO controllers and `arm_joint_bridge` that the repository's README names: their source is not part of this model.
- Serial ports, sockets, sleeps and clocks: device answers are a sequence of reads, a deadline is a number of polls or reads. Flushing the port and the progress bars have no effect here.
- Firmware packages: JSON, base64 and zlib are not modelled; the image and its stated sizes are given. What is printed about the board and finding out whether windowed mode is used are left out.
- Bootloader.FlashedExactly: flash that fails its read-back, the silicon check, timeouts inside a command and empty blocks are not modelled; the commands are functions on the board's state.
- FirmwareUpload.FlashBoard: without a boot delay, which the board stores inside the flash it has summed; commands the uploader never sends are not modelled, and the board answers each command before it reads the next.
- UploadTimings.AnyTiming: a board that is sent a command outside its model (a boot delay, the read-back of revision 2) counts as one that cannot have answered.
- UlogSender.LogWriterMavlink.PublishMessage: whether an awaited acknowledgement comes in time is a parameter; polling for it is left out.
- COMMAND_ACK handling and the start and stop commands of the log streaming tool.
- MAVLink: the generated classes of the roughly ninety messages are one generic schema; `x25crc` is an arbitrary fold over bytes; floats are their four raw bytes; non-robust parsing, callbacks and the native parser are left out.
- uORB: the message loader, type-name tables, text generation and variable-length arrays; nesting is a finite tree, so cyclic messages do not exist.
- BusRegistry.BusInstanceIterator.RemoveInstance: the linked list is a sequence, so that the instance is deleted before it is unlinked is not captured. The SPI walk is given as its list of buses; argument parsing, work queues, driver probing and the mutex are left out, each start or stop being one step.
- ConsoleFetch.WaitForString: the timeout is a number of reads, and running out of input counts as one.
- Metrics.MetricsLaws: square roots and norms are taken as given non-negative numbers with the right square; rounding is not modelled, nor are the constant entries of the result.
- Resample.ResampleWithDeltaX: floating-point rounding is not modelled, so a quotient that rounds up to 2000 is not covered.
- The remaining scripts and all flight code: easy members or thin wrappers around libraries.
