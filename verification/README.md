# Models and proofs for the Datonis device code

Eight components of the repository as Dafny models with proofs. Methods follow the code's own loops and state and are
proved against functions; lemmas then say what the sources promise of these functions over every input, every run or
every cut of a stream. `dafny verify dfyconfig.toml` checks the whole project.

| component | files |
|---|---|
| LZF compressor and ZV frames | Lzf, ZvFrames |
| CRC-16, three C algorithms and one in Python | Crc16, Crc16Algorithms, Crc16Burst, Octets |
| firmware upload over XMODEM, from the Python sender through a lossy link to the flash | Xmodem, XmodemLink, XmodemRuns, FirmwareFlash |
| SPI flash read-modify-write through a scratch sector | SpiFlash |
| SHA-256 and HMAC, on Linux and on Arduino | Sha256Spec, Sha256Constants, Sha256Words, Sha256Length, Sha256Linux, HmacLinux, Sha256Arduino, Sha256Agree |
| CBC and the encrypted firmware download | Cbc, Fota |
| the JSON tokenizer and a token walker | Jsmn, JsmnParser, JsonText, JsonParse, JsonRejects, AckHandler |
| MQTT codec, topic filters, QoS 2 receiver; telnet stream | MqttWire, MqttPublish, MqttConnect, TopicFilter, Qos2, Telnet |

## What is abstract

- The block cipher is a pair of functions on 16-octet blocks, MD5 the sequence of octets appended to it, crc32 and atoi
  parameters. Their code is not part of this model.
- The flash chip erases whole sectors to 0xFF, programs by and-ing at most one page, and reads what is there. The scratch
  sector is any aligned sector outside the range written, as in both layouts of
  `c/Linkit 7681 SDK/Src/src/include/flash_map.h`.
- The link of the upload is a pair of queues of packets and replies. It may lose or change replies, but not into ACK, and
  may turn packets into any octets that are no valid block, of which the receiver makes what it likes: a rejection,
  nothing, an abort, even a false EOT.
- Time, sockets and UART become nondeterministic inputs: a timeout is a reply that is not there, a send that fails is a
  flag of the event.
- C integers are unbounded integers or subset types where the code stays in range, and wrap explicitly where it does not:
  packet numbers, retry counters, lengths in octets, unsigned comparisons.

## Where code and documentation differ

The model follows the code.

- `c/linux/LZFCompression/lzf_c.c:89-96` describes references of L octets; the code writes references to L + 2 octets and
  offsets up to 8192. The decoder follows the code.
- lzf.h promises less than 104 % of the input. That holds for every input of n octets exactly when
  25 * ceil(n / 32) < n, which fails for 1 to 25, 33 to 50, 65 to 75 and 97 to 100 octets (`Lzf.Below104Iff`).
- An input of exactly 8191 octets keeps `LZFcompress_data` in its outer loop for ever (`ZvFrames.Passes`).
- Two start characters can make the upload lose a block although `send` returns True, when the sender takes the second
  one for a NAK: the link has changed it, or the receiver has fallen back to NAK after thirty 'C's. Reading an
  undamaged second 'C' makes `send` stop. Without a NAK that answers no packet nothing is lost. Files with an upgrade
  type that the receiver refuses at the second block need more of both, one for every block
  (`XmodemRuns.CompleteIff`).
- An unexpected reply to a block is meant to be logged and the transfer aborted with CANs. `send` raises a TypeError
  before that: it formats the string that getc returns with %d (`Xmodem.RaisesIff`).
- A header length of 2^31 or more makes the receiver pass 150 octets of a 128-octet block to the flash
  (`XmodemRuns.OverlongIff`).
- When the id table is full a QoS 2 message is acknowledged and not delivered (`Qos2.DeliveredIff`, `Qos2.MessageLost`).
- A truncated PUBLISH, acknowledgement or SUBSCRIBE is reported as success when its length field is one octet
  (`MqttPublish.PublishFailure`, `MqttPublish.AckFailure`, `MqttPublish.SubscribeFailure`, `MqttPublish.ShortPackets`).
- `F/#` does not match `F`, and a wildcard takes no empty level (`TopicFilter.MatchesLevels`).
- `ack_handler` passes `count - j` for the children of a token although `count - 1 - j` tokens are left. For texts that
  the parser accepts leniently, such as `{"a"}`, whose object has one member and no value, it reads a token behind the
  last one. For the text of a JSON value it stays within them (`AckHandler.Handler.Handle`).
- `flushinput` does nothing, its loop is a comment.
- `spi_flash_update_fw` has no region for the upgrade type of the cloud download and returns 1 without touching the
  flash, so the pages of `Fota` are calls of that function and not flash contents.
- The option octet of a subnegotiation is not escaped (`Telnet.SubReadIff`).
- The loop that clears the buffer in `sha256_initialize` runs one word past it, into the state that is set next.

## Model

| member | source | states |
|---|---|---|
| `Lzf.DecodeAppend` | c/linux/LZFCompression/lzf_c.c:89-96 | decoding a concatenation is decoding its parts one after the other, each seeing the output of those before it |
| `Lzf.CopyBackReproduces` | c/linux/LZFCompression/lzf_c.c:206-223 | an octet-by-octet copy from `dist` back reproduces any stretch of the input that repeats what is `dist` before it, also when source and target overlap |
| `Lzf.DecodeLiteralRun` | c/linux/LZFCompression/lzf_c.c:262-268 | a run header holding length - 1 and 1 to 32 octets decodes to these octets |
| `Lzf.DecodeMatchToken` | c/linux/LZFCompression/lzf_c.c:206-219 | the two- or three-octet reference written for a match decodes to a copy of its length + 2 octets from its offset + 1 back |
| `Lzf.MatchLength` | c/linux/LZFCompression/lzf_c.c:163-206 | the match found repeats what is at the reference, stays within input and MAX_REF, and is as long as possible but near the end of the input, which it comes no closer to than two octets once it is longer than 19 |
| `Lzf.StopRun` | c/linux/LZFCompression/lzf_c.c:171-287 | patching the run header, or undoing it when the run is empty, leaves output that decodes to everything read |
| `Lzf.WriteMatch` | c/linux/LZFCompression/lzf_c.c:206-219 | after the reference is written the output decodes to everything read including the match, in two or three octets and fewer than the match has |
| `Lzf.CopyLiteral` | c/linux/LZFCompression/lzf_c.c:262-283 | a literal keeps the output decodable, closing the run after 32 and opening the next |
| `Lzf.TakeMatch` | c/linux/LZFCompression/lzf_c.c:161-255 | taking a match keeps everything written before decodable and starts a new run |
| `Lzf.Finish` | c/linux/LZFCompression/lzf_c.c:272-289 | the last literals and the last header leave output that decodes to the whole input |
| `Lzf.HashIs` | c/linux/LZFCompression/lzf_c.c:50-57 | the hash is the value without its last octet less five times the value, modulo 65536 |
| `Lzf.HashOfThree` | c/linux/LZFCompression/lzf_c.c:50-57 | the hash depends on the last three octets of the rolling value only |
| `Lzf.TableStores` | c/linux/LZFCompression/lzf_c.c:144-146 | a store keeps the table holding, for every hash, the last position whose three octets have it, or what was there at the start |
| `Lzf.ChoosesMatch` | c/linux/LZFCompression/lzf_c.c:144-243 | a turn that takes the match at the position the table holds for its three octets, and stores its own position and those of the match's last two octets, is the turn prescribed |
| `Lzf.MatchTurn` | c/linux/LZFCompression/lzf_c.c:161-243 | the code's turn does that |
| `Lzf.LiteralTurn` | c/linux/LZFCompression/lzf_c.c:256-269 | a turn without such a match copies an octet |
| `Lzf.Scan` | c/linux/LZFCompression/lzf_c.c:137-270 | every turn is a match exactly when the last position stored under its hash is behind the first octet, at most 8192 octets back and begins with the same three octets; everything written before stays decodable; the scan stops for lack of room only when less than five octets are left and n + n / 32 + 4 are not there |
| `Lzf.EqualItems` | c/linux/LZFCompression/lzf_c.c:137-270 | of equal octets, whatever the table held, the first two are literals and all behind them is covered by matches, each but the last of 264 octets |
| `Lzf.Compress` | c/linux/LZFCompression/lzf_c.c:98-290 | for every input, output limit and initial hash table: a nonzero result decodes to the input, nothing is stored at or behind the limit, the size is that of the prescribed items and the tail, at most n + ceil(n / 32) and exactly that when no octet occurs twice; n equal octets take at most 6 + 3 * ceil(n / 264); with n + n / 32 + 4 octets of room it succeeds; below 104 % whenever 25 * ceil(n / 32) < n |
| `Lzf.Below104Iff` | c/linux/LZFCompression/lzf.h:51-64 | less than 104 % of the original size is certain for the inputs of a length if and only if 25 * ceil(n / 32) < n |
| `Lzf.LengthsAbove104` | c/linux/LZFCompression/lzf.h:51-64 | the lengths for which it is not are 1 to 25, 33 to 50, 65 to 75 and 97 to 100 |
| `Lzf.WorstCase` | c/linux/LZFCompression/lzf_c.c:98-290 | for each of them the compressor makes 104 % or more of an input |
| `ZvFrames.FramesAppend` | c/linux/Aliot/LZFcompress.c:34-66 | a frame behind decodable frames decodes to its data behind theirs |
| `ZvFrames.EncodeChunk` | c/linux/Aliot/LZFcompress.c:34-60 | every chunk of 1 to 3000 octets becomes one frame that decodes to it and is at most five octets longer; sixteen equal octets or more become a compressed one |
| `ZvFrames.EncodeChunks` | c/linux/Aliot/LZFcompress.c:25-69 | one pass, from where the one before it has left off, reads what is left of the input and leaves frames that decode to all of it |
| `ZvFrames.CompressData` | c/linux/Aliot/LZFcompress.c:13-73 | for every length but 8191 the frames decode to the input, take at most n + 5 * ceil(n / 3000) octets, and nothing behind the closing zero is stored |
| `ZvFrames.Passes` | c/linux/Aliot/LZFcompress.c:23-71 | after any number of passes of the outer loop its condition holds exactly when the input has BLOCKSIZE = 8191 octets |
| `Crc16.StepIsShift` | c/Linkit 7681 SDK/Src/cust/crypt_crc.c:91-106 | entering a message bit is adding it at the top of the register and shifting once |
| `Crc16.ShiftsXor` | c/Linkit 7681 SDK/Src/cust/crypt_crc.c:91-106 | shifting the register is linear over exclusive or |
| `Crc16.FeedAligned` | c/Linkit 7681 SDK/Src/cust/crypt_crc.c:129-170 | up to eight bits may be added at the top at once and shifted out together |
| `Crc16.AlignedPrefix` | c/Linkit 7681 SDK/Src/cust/crypt_crc.c:129-170 | the bits of an octet lined up are the octet in the upper half of the register |
| `Crc16Algorithms.TableEntry` | c/Linkit 7681 SDK/Src/cust/crypt_crc.c:31-71 | each of the 256 table entries is its index, in the upper half, shifted eight times |
| `Crc16Algorithms.FeedByte` | c/Linkit 7681 SDK/Src/cust/crypt_crc.c:129-134 | the table step of an octet is eight bit steps |
| `Crc16Algorithms.FeedNibble` | c/Linkit 7681 SDK/Src/cust/crypt_crc.c:160-170 | the half-byte table step is four bit steps |
| `Crc16Algorithms.TurnIsStep` | c/Linkit 7681 SDK/Src/cust/crypt_crc.c:94-104 | one turn of the bit loop on the 32-bit accumulator is one step of the 16-bit register |
| `Crc16Algorithms.CalByBit` | c/Linkit 7681 SDK/Src/cust/crypt_crc.c:91-106 | the bit-by-bit function returns the CRC of the message |
| `Crc16Algorithms.CalByByte` | c/Linkit 7681 SDK/Src/cust/crypt_crc.c:125-137 | the byte-table function returns the same CRC |
| `Crc16Algorithms.CalByHalfByte` | c/Linkit 7681 SDK/Src/cust/crypt_crc.c:156-173 | the half-byte-table function returns the same CRC |
| `Crc16Algorithms.CalcCrc` | c/Linkit 7681 SDK/Uploader/xmodem/__init__.py:492-505 | calc_crc, whose accumulator grows without bound and is masked only at the end, returns the register after the message, from any starting value |
| `Crc16Algorithms.CalcCrcIncremental` | c/Linkit 7681 SDK/Uploader/xmodem/__init__.py:492-501 | the CRC of a + b is the CRC of b continued from the CRC of a |
| `Crc16Burst.CrcLinear` | c/Linkit 7681 SDK/Src/cust/crypt_crc.c:91-106 | the CRC of the bitwise difference of two equally long messages is the exclusive or of their CRCs |
| `Crc16Burst.BurstDetected` | c/Linkit 7681 SDK/Src/cust/crypt_crc.c:91-106 | two messages that differ, and only within sixteen consecutive bits, have different CRCs |
| `Crc16Burst.AcceptsIff` | c/Linkit 7681 SDK/Src/cust/iot_xmodem.c:80-86 | the trailer check accepts exactly the blocks whose register over data and trailer is zero |
| `Crc16Burst.BurstRejected` | c/Linkit 7681 SDK/Src/cust/iot_xmodem.c:80-98 | no burst of up to sixteen bits in data and trailer turns an accepted block into another accepted one |
| `Xmodem.Check` | c/Linkit 7681 SDK/Src/cust/iot_xmodem.c:80-98 | `check` is true exactly when the CRC, or the sum modulo 256, of the block is the one behind it |
| `Xmodem.FrameChecks` | c/Linkit 7681 SDK/Uploader/xmodem/__init__.py:288-309 | every packet the Python sender builds passes the C receiver's checks and carries its number and data |
| `Xmodem.FrameOctets` | c/Linkit 7681 SDK/Uploader/xmodem/__init__.py:295-309 | a packet is 0x01, the number, its complement, the data and the CRC, high octet first, or the sum |
| `Xmodem.FirmwareReceiver.constructor` | c/Linkit 7681 SDK/Src/cust/iot_xmodem.c:328-346 | the receiver starts with block 1, nothing written and the default upgrade size |
| `Xmodem.FirmwareReceiver.StoreBlock` | c/Linkit 7681 SDK/Src/cust/iot_xmodem.c:420-466 | the new state is that of `Store`: cycle counter, block number, header of the first block, one flash write per later block |
| `Xmodem.FirmwareReceiver.HandleBlock` | c/Linkit 7681 SDK/Src/cust/iot_xmodem.c:416-485 | the new state and the reply are those of `OnBlock`; a duplicate of block 255 is compared with the int packetno - 1 as in the source |
| `Xmodem.Settled` | c/Linkit 7681 SDK/Uploader/xmodem/__init__.py:209-356 | once send has returned or raised it consumes and transmits nothing more |
| `Xmodem.RaisesIff` | c/Linkit 7681 SDK/Uploader/xmodem/__init__.py:311-336 | send raises exactly when some reply to a block is nothing, or is neither ACK nor NAK and one more octet follows it, and it has then not sent the CANs of its abort |
| `Xmodem.BlockAt` | c/Linkit 7681 SDK/Uploader/xmodem/__init__.py:281-288 | block i of the stream is its octets from 128 i on, the last one padded |
| `Xmodem.Send` | c/Linkit 7681 SDK/Uploader/xmodem/__init__.py:248-356 | for all replies the packets transmitted and the way send ends are those of the state machine OnReplies |
| `Xmodem.SendBlocks` | c/Linkit 7681 SDK/Uploader/xmodem/__init__.py:276-356 | the same from the start character on |
| `Xmodem.SendPacket` | c/Linkit 7681 SDK/Uploader/xmodem/__init__.py:294-336 | a block is repeated until it is acknowledged or the errors run out |
| `Xmodem.SendEot` | c/Linkit 7681 SDK/Uploader/xmodem/__init__.py:341-356 | the same for EOT |
| `XmodemLink.BlockRange` | c/Linkit 7681 SDK/Src/cust/iot_xmodem.c:416-417 | a valid block under way is never so far from what the receiver has accepted that its number modulo 256 could be mistaken |
| `XmodemLink.NextInv` | c/Linkit 7681 SDK/Src/cust/iot_xmodem.c:354-485 | every step of sender, receiver or link keeps the invariant that ties the packets and replies under way to the blocks written |
| `XmodemLink.RunInv` | c/Linkit 7681 SDK/Src/cust/iot_xmodem.c:348-485 | so it holds after every run from the start |
| `XmodemLink.WritesInOrder` | c/Linkit 7681 SDK/Src/cust/iot_xmodem.c:430-464 | the flash writes are block by block, each once, gapless and at offset 128 * (ordinal - 2) |
| `XmodemLink.WritesAreThePayload` | c/Linkit 7681 SDK/Src/cust/iot_xmodem.c:420-464 | put together they are the payload up to the announced size |
| `XmodemLink.UploadIsSafe` | c/Linkit 7681 SDK/Src/cust/iot_xmodem.c:401-485 | in every run over a link that loses and damages but forges no valid block and no ACK, up to 65535 blocks, what has been written is exactly the first min(128 k, UpgSize) octets behind the header block; a receiver without a CRC may take a CRC frame whose sum fits, and its last octet for a control character |
| `XmodemLink.AnnouncedUpload` | c/Linkit 7681 SDK/Src/cust/iot_xmodem.c:437-464 | for a file that begins 76 81 AA, the octets of n from the least significant on, and t: in every run exactly min(128 (k - 1), n) octets behind the first 128 are written, 0x1A behind the end of the file, in blocks of type t at multiples of 128 |
| `XmodemLink.MissingBlocks` | c/Linkit 7681 SDK/Src/cust/iot_xmodem.c:367-375 | when the sender's own EOT arrives no more blocks are missing than repeated ones were acknowledged |
| `XmodemLink.CountWithinBlock` | c/Linkit 7681 SDK/Src/cust/iot_xmodem.c:420-427 | the count passed on stays within the block exactly when the announced length is below 2^31; otherwise the unsigned comparison makes it 150 |
| `XmodemRuns.OverlongIff` | c/Linkit 7681 SDK/Src/cust/iot_xmodem.c:420-464 | some run stores more octets than a block holds if and only if the size its header announces is a negative int |
| `XmodemLink.RunTailInv` | c/Linkit 7681 SDK/Src/cust/iot_xmodem.c:348-418 | only a receiver that has fallen back to NAK after thirty start characters is without a CRC and can leave the last octet of a packet unread |
| `XmodemLink.NothingMissing` | c/Linkit 7681 SDK/Src/cust/iot_xmodem.c:367-375 | when the receiver has sent at most one start character, or there was no NAK that answers no packet, nothing is missing at the sender's own EOT |
| `XmodemRuns.CleanRun` | c/Linkit 7681 SDK/Src/cust/iot_xmodem.c:348-485 | every usable file has a run that delivers it completely with both ends stopping |
| `XmodemRuns.LossyRun` | c/Linkit 7681 SDK/Src/cust/iot_xmodem.c:354-357 | every usable file has a run with two start characters, the second changed into NAK on the link, in which send returns True and the last block is missing |
| `XmodemRuns.HeaderOnlyRun` | c/Linkit 7681 SDK/Src/cust/iot_xmodem.c:348-485 | every file of two to sixteen blocks, whatever its upgrade type, has a run with a start character for each block, all but the first changed into NAK, in which send returns True and only the header block has arrived |
| `XmodemRuns.RefusedAtEot` | c/Linkit 7681 SDK/Src/cust/iot_xmodem.c:453-459 | the sender's own EOT reaches the receiver of a file whose second block it refuses only if the file has at most sixteen blocks, no more than there are start characters and no more than one above the NAKs that answer no packet |
| `XmodemRuns.ShortComplete` | c/Linkit 7681 SDK/Src/cust/iot_xmodem.c:367-375 | a file of at most one block is complete whenever the sender's own EOT arrives |
| `XmodemRuns.MissingRun` | c/Linkit 7681 SDK/Src/cust/iot_xmodem.c:348-485 | every file of two blocks or more that can miss a block does so in a run with one start character, and one NAK that answers no packet, for each spare acknowledgement needed, and one start character on top |
| `XmodemRuns.CompleteIff` | c/Linkit 7681 SDK/Src/cust/iot_xmodem.c:348-485 | for every file: completeness at the sender's own EOT is certain for all runs with up to n start characters and up to m NAKs that answer no packet if and only if the file has at most one block, or n <= k, or m < k, or k >= 16, where k is 1, or one less than the number of blocks for files whose second block the receiver refuses |
| `SpiFlash.Flash.constructor` | c/Linkit 7681 SDK/Src/cust/spi-flash_pub.c:348-360 | a flash with any contents and any aligned scratch sector |
| `SpiFlash.Flash.EraseSector` | c/Linkit 7681 SDK/Src/cust/spi-flash_pub.c:98-126 | the sector holding the address becomes 0xFF |
| `SpiFlash.Flash.PageWrite` | c/Linkit 7681 SDK/Src/cust/spi-flash_pub.c:191-214 | at most one page is programmed, wrapping around within the page |
| `SpiFlash.WithinPage` | c/Linkit 7681 SDK/Src/cust/spi-flash_pub.c:231-235 | a page write that ends in its page does not wrap around |
| `SpiFlash.Flash.WriteFunc` | c/Linkit 7681 SDK/Src/cust/spi-flash_pub.c:220-267 | for any address and length the octets in the range are and-ed with the data and no others change |
| `SpiFlash.PartlyMore` | c/Linkit 7681 SDK/Src/cust/spi-flash_pub.c:376-417 | programming the next chunk over erased octets stores it |
| `SpiFlash.Flash.KeepSector` | c/Linkit 7681 SDK/Src/cust/spi-flash_pub.c:370-386 | the scratch sector holds the target sector's contents, everything else is as before |
| `SpiFlash.Flash.FillBuffer` | c/Linkit 7681 SDK/Src/cust/spi-flash_pub.c:397-411 | the RAM buffer holds the chunk with the data that falls into it, and the cursor has moved past that |
| `SpiFlash.Flash.RewriteSector` | c/Linkit 7681 SDK/Src/cust/spi-flash_pub.c:388-417 | the target sector holds the image's octets, everything else is as before |
| `SpiFlash.Flash.RewriteOne` | c/Linkit 7681 SDK/Src/cust/spi-flash_pub.c:370-418 | one turn takes the flash from the image up to this sector to the image up to the next, and a power failure during any of its commands can be repaired |
| `SpiFlash.Flash.Write` | c/Linkit 7681 SDK/Src/cust/spi-flash_pub.c:348-422 | the flash is the old contents with the data stored at the address, but for the scratch sector, which keeps the last sector's old contents; -1 and no change for a null pointer, no octets or more than 4096; whenever power fails, even within a command, one sector at most is neither old nor new and its old contents are in place or in the scratch sector |
| `SpiFlash.RepairFromScratch` | c/Linkit 7681 SDK/Src/cust/spi-flash_pub.c:388-417 | while the target sector is erased and rewritten the scratch sector can restore it |
| `SpiFlash.RepairInPlace` | c/Linkit 7681 SDK/Src/cust/spi-flash_pub.c:370-386 | while the scratch sector is rewritten the target sector is still intact |
| `SpiFlash.Flash.UpdateFw` | c/Linkit 7681 SDK/Src/cust/spi-flash_pub.c:282-343 | the first block of a region erases it and every block is programmed at its offset; the return code tells whether the checksum of what is read back is that of the block |
| `FirmwareFlash.FlashedWrites` | c/Linkit 7681 SDK/Src/cust/spi-flash_pub.c:318-327 | the calls for k blocks leave the region as one erasure and one programming of the payload |
| `FirmwareFlash.UploadedImage` | c/Linkit 7681 SDK/Src/cust/iot_xmodem.c:441-464 | sender, link, receiver and flash together: after every run with a block accepted behind the header the region holds the file's octets as far as they fit, what does not fit is and-ed with what was there, and the rest is unchanged |
| `FirmwareFlash.AnnouncedImage` | c/Linkit 7681 SDK/Src/cust/spi-flash_pub.c:293-330 | the same for the octets of the file and the addresses of flash_map.h: the region of type t holds the n octets announced |
| `Sha256Constants.PrimesListed` | c/arduino/libraries/Sha/sha256.cpp:6-15 | the table of primes lists exactly those below 312 |
| `Sha256Constants.ConstantIsRoot` | c/arduino/libraries/Sha/sha256.cpp:6-15 | section 4.2.2 of FIPS 180-2: each of the 64 constants holds the first 32 bits of the fractional part of the cube root of its prime |
| `Sha256Constants.InitialIsRoot` | c/arduino/libraries/Sha/sha256.cpp:19-28 | section 5.3.2: the initial hash value holds those of the square roots of the first eight primes |
| `Sha256Linux.TableIs` | c/linux/Aliot/hmac.c:143-156 | the table of hmac.c holds these constants |
| `Sha256Linux.ScheduleTerms` | c/linux/Aliot/hmac.c:167-172 | the shifts of the schedule in hmac.c are the small sigmas of section 4.1.2 |
| `Sha256Linux.RoundTerms` | c/linux/Aliot/hmac.c:186-193 | those of the rounds the big sigmas, Ch and Maj |
| `Sha256Arduino.TableIs` | c/arduino/libraries/Sha/sha256.cpp:6-15 | so does that of sha256.cpp |
| `Sha256Spec.SchedulePrefix` | c/linux/Aliot/hmac.c:165-178 | the schedule's entries do not depend on how far it is extended |
| `Sha256Spec.ScheduleEntry` | c/linux/Aliot/hmac.c:169-178 | each entry from 16 on is the sum of section 6.2.2 of FIPS 180-2 |
| `Sha256Length.IncNums` | c/linux/Aliot/hmac.c:120-123 | carrying into the octets of a number adds one to it, modulo the field |
| `Sha256Length.BitsOfLength` | c/linux/Aliot/hmac.c:110-119 | the shifts of the length loop are the octets of 8 n |
| `Sha256Length.IndexOfLength` | c/linux/Aliot/hmac.c:131-226 | the position computed from the length octets is the number of octets hashed modulo 64 |
| `Sha256Words.WordsAppend` | c/linux/Aliot/hmac.c:135-137 | or-ing an octet into a buffer that is zero behind the data appends it |
| `Sha256Words.SetLaneByte` | c/arduino/libraries/Sha/sha256.cpp:81-83 | setting octet i ^ 3 of a little-endian word sets octet i counted from the most significant one and no other |
| `Sha256Words.SwapLanes` | c/arduino/libraries/Sha/sha256.cpp:118-128 | the byte swap makes the little-endian octets of a word its big-endian ones |
| `Sha256Linux.Context.Initialize` | c/linux/Aliot/hmac.c:87-101 | the context is that of the empty message |
| `Sha256Linux.Context.AddLength` | c/linux/Aliot/hmac.c:110-126 | the eight length octets are those of the bit length with the new octets counted in, modulo 2^64 |
| `Sha256Linux.Context.Ripple` | c/linux/Aliot/hmac.c:121-123 | the carry loop adds one to the octets before it |
| `Sha256Linux.Context.HashBlock` | c/linux/Aliot/hmac.c:139-210 | the state is that of section 6.2.2 after the block in the buffer, and the buffer is cleared |
| `Sha256Linux.Context.FillBuffer` | c/linux/Aliot/hmac.c:133-137 | the buffer holds what was left over with the message's octets behind it |
| `Sha256Linux.Context.Update` | c/linux/Aliot/hmac.c:105-212 | the context is that of everything fed so far with the message behind it, whatever the lengths |
| `Sha256Linux.Context.Terminator` | c/linux/Aliot/hmac.c:220-231 | the terminator is the padding of section 5.1.1 for the octets fed so far |
| `Sha256Linux.Context.Finalize` | c/linux/Aliot/hmac.c:217-237 | the digest is the SHA-256 of everything fed and the last message |
| `HmacLinux.Sha256Get` | c/linux/Aliot/hmac.c:241-248 | the digest of a message in one call |
| `HmacLinux.HmacContext.Initialize` | c/linux/Aliot/hmac.c:257-276 | the key block is that of RFC 2104, hashed first for keys of more than 64 octets |
| `HmacLinux.HmacContext.Update` | c/linux/Aliot/hmac.c:280-283 | the text is extended |
| `HmacLinux.HmacContext.Finalize` | c/linux/Aliot/hmac.c:287-305 | the digest is the outer hash over the inner one |
| `HmacLinux.HmacGet` | c/linux/Aliot/hmac.c:307-315 | HMAC-SHA256 of section 2 of RFC 2104 for every key and message |
| `Sha256Arduino.RorIsRotr` | c/arduino/libraries/Sha/sha256.cpp:36-38 | ror32 is the rotation |
| `Sha256Arduino.ChooseIsCh` | c/arduino/libraries/Sha/sha256.cpp:64-64 | the rewritten Ch is Ch |
| `Sha256Arduino.MostIsMaj` | c/arduino/libraries/Sha/sha256.cpp:68-68 | the rewritten Maj is Maj |
| `Sha256Arduino.NextWordIs` | c/arduino/libraries/Sha/sha256.cpp:54-61 | the entry added up from the rolling window is the one of the 64-word schedule |
| `Sha256Arduino.TurnIsRound` | c/arduino/libraries/Sha/sha256.cpp:62-69 | one turn of hashBlock is one round |
| `Sha256Arduino.XorThreeValue` | c/arduino/libraries/Sha/sha256.cpp:82-82 | n ^ 3 is the position mirrored within its word |
| `Sha256Arduino.Hasher.Init` | c/arduino/libraries/Sha/sha256.cpp:30-34 | the state is that of the empty message |
| `Sha256Arduino.Hasher.ScheduleWord` | c/arduino/libraries/Sha/sha256.cpp:54-61 | overwriting the sixteen-word buffer keeps the window of the schedule that the next turn needs |
| `Sha256Arduino.Hasher.HashBlock` | c/arduino/libraries/Sha/sha256.cpp:40-79 | the state is that of section 6.2.2 after the block in the buffer |
| `Sha256Arduino.Hasher.AddUncounted` | c/arduino/libraries/Sha/sha256.cpp:81-88 | one octet more is hashed, the block when it is complete |
| `Sha256Arduino.Hasher.Write` | c/arduino/libraries/Sha/sha256.cpp:90-93 | the same, counted |
| `Sha256Arduino.Hasher.Pad` | c/arduino/libraries/Sha/sha256.cpp:95-111 | what is hashed ends with the padding of section 5.1.1 |
| `Sha256Arduino.Hasher.Result` | c/arduino/libraries/Sha/sha256.cpp:114-131 | the octets returned are the SHA-256 of what was written |
| `Sha256Arduino.Hasher.InitHmac` | c/arduino/libraries/Sha/sha256.cpp:139-156 | the key buffer is the key block of RFC 2104 and the inner padded block is hashed |
| `Sha256Arduino.Hasher.ResultHmac` | c/arduino/libraries/Sha/sha256.cpp:158-167 | the outer hash over the inner one |
| `Sha256Arduino.HmacOf` | c/arduino/libraries/Sha/sha256.cpp:139-167 | HMAC-SHA256 for every key and every message below 2^32 - 64 octets |
| `Sha256Agree.DigestOfPieces` | c/linux/Aliot/hmac.c:105-237 | any cut of a message into sha256_update calls gives the digest of the whole |
| `Sha256Agree.ArduinoDigest` | c/arduino/libraries/Sha/sha256.cpp:30-131 | the SHA-256 of every message below 2^32 octets |
| `Sha256Agree.SameDigest` | c/arduino/libraries/Sha/sha256.cpp:30-131 | both implementations give the same digest |
| `Sha256Agree.SameHmac` | c/arduino/libraries/Sha/sha256.cpp:139-167 | and the same authentication code for every key and message |
| `Cbc.Encrypt` | c/Linkit 7681 SDK/Src/cust/iot_aes_pub.c:345-432 | the output is the CBC of section 6.2 of NIST SP 800-38A of the padded plaintext, and nothing is written when buffer, key length or iv length is wrong |
| `Cbc.Decrypt` | c/Linkit 7681 SDK/Src/cust/iot_aes_pub.c:457-524 | the output is the CBC decryption and the length the size less the last octet, modulo 2^32 |
| `Cbc.DecryptsEncrypted` | c/Linkit 7681 SDK/Src/cust/iot_aes_pub.c:345-524 | decryption inverts encryption over any cipher whose decrypt inverts its encrypt |
| `Cbc.PaddingOctets` | c/Linkit 7681 SDK/Src/cust/iot_aes_pub.c:366-420 | every octet of the padding is the number of octets added, one to sixteen |
| `Cbc.DecryptedAppend` | c/Linkit 7681 SDK/Src/cust/iot_aes_pub.c:595-613 | decryption goes on from the last block of the ciphertext before |
| `Cbc.RoundTrip` | c/Linkit 7681 SDK/Src/cust/iot_aes_pub.c:345-524 | every plaintext comes back in octets and length |
| `Cbc.AesCbc.CompleteDecrypt` | c/Linkit 7681 SDK/Src/cust/iot_aes_pub.c:547-620 | one piece is decrypted with the iv kept for the next unless it is the last |
| `Cbc.AnyCut` | c/Linkit 7681 SDK/Src/cust/iot_aes_pub.c:547-620 | any cut into nonempty multiples of sixteen octets decrypts to the same plaintext and leaves the same iv |
| `Cbc.CutRoundTrip` | c/Linkit 7681 SDK/Src/cust/iot_aes_pub.c:547-620 | encrypted, cut anyhow and decrypted piece by piece, padding flag on the last, the plaintext comes back |
| `Cbc.DecryptPieces` | c/Linkit 7681 SDK/Src/cust/iot_aes_pub.c:547-620 | aes_cbc_complete_decrypt over the pieces gives the decryption of all but the last, and the last without its padding |
| `Cbc.EncryptAndDecrypt` | c/Linkit 7681 SDK/Src/cust/iot_aes_pub.c:345-620 | what aes_cbc_encrypt makes of a plaintext, cut in any way into pieces of whole blocks, comes back from aes_cbc_complete_decrypt |
| `Fota.CallAt` | c/Linkit 7681 SDK/Src/cust/tcpip/cloudclient.c:442-449 | page j behind the header page is stored once, at 128 (j - 1) |
| `Fota.Download.constructor` | c/Linkit 7681 SDK/Src/cust/tcpip/cloudclient.c:923-930 | a download starts with an empty buffer, the given iv and no pages |
| `Fota.Download.Decode` | c/Linkit 7681 SDK/Src/cust/tcpip/cloudclient.c:435-438 | pages are decrypted, appended to MD5 and the iv is handed on |
| `Fota.Download.Keep` | c/Linkit 7681 SDK/Src/cust/tcpip/cloudclient.c:465-473 | a segment that does not fill the buffer is kept behind what is there |
| `Fota.Download.Flush` | c/Linkit 7681 SDK/Src/cust/tcpip/cloudclient.c:433-489 | the filled buffer is decrypted and its page stored |
| `Fota.Download.TakePages` | c/Linkit 7681 SDK/Src/cust/tcpip/cloudclient.c:450-464 | the whole pages of a segment are decrypted and stored |
| `Fota.Download.Update` | c/Linkit 7681 SDK/Src/cust/tcpip/cloudclient.c:421-490 | after any segments iv, MD5 input, flash calls and buffer are those of the concatenated stream: the decryption of the prefix rounded down to 128, the first page kept out of the flash |
| `Fota.Receive` | c/Linkit 7681 SDK/Src/cust/tcpip/cloudclient.c:421-490 | the same for a whole sequence of segments: calls, MD5 input, iv and buffer are functions of their concatenation |
| `Fota.SameDownload` | c/Linkit 7681 SDK/Src/cust/tcpip/cloudclient.c:421-490 | two ways of cutting a stream into segments end in the same calls, MD5 input, iv and buffer |
| `Jsmn.StepInv` | c/linux/Aliot/jsmn.c:160-290 | every turn keeps the tokens within the text, nested or disjoint, and counted in one size each |
| `Jsmn.RunInv` | c/linux/Aliot/jsmn.c:153-300 | so does every parse |
| `Jsmn.AnyInput` | c/linux/Aliot/jsmn.c:153-300 | for any text at all, a fresh parse that succeeds returns the number of tokens; each is closed with its own bracket or quote and in range, any two are disjoint or nested, and the sizes add up to the tokens with a superior |
| `JsmnParser.Parser.AllocToken` | c/linux/Aliot/jsmn.c:8-21 | the next token is taken and cleared, or there is none |
| `JsmnParser.Parser.ParsePrimitive` | c/linux/Aliot/jsmn.c:37-81 | a primitive ends at a delimiter, NUL or the end; on an error the position is restored |
| `JsmnParser.Parser.ParseString` | c/linux/Aliot/jsmn.c:86-148 | a string ends at the first quote that is not escaped; on an error the position is restored |
| `JsmnParser.Parser.CloseBracket` | c/linux/Aliot/jsmn.c:184-229 | the last open container is closed if it is of this kind, and the one around it becomes the superior |
| `JsmnParser.Parser.Comma` | c/linux/Aliot/jsmn.c:242-259 | behind a key or value the enclosing container becomes the superior again |
| `JsmnParser.Parser.Turn` | c/linux/Aliot/jsmn.c:160-290 | the body of the loop is the step function |
| `JsmnParser.Parser.Parse` | c/linux/Aliot/jsmn.c:153-300 | position, tokens, superior and return code are those of the function Run, for any text and any starting state |
| `JsonParse.ScanStringHere` | c/linux/Aliot/jsmn.c:93-146 | a string's contents, escapes included, are scanned to its closing quote |
| `JsonRejects.StringExactly` | c/linux/Aliot/jsmn.c:93-147 | a string ends exactly at the quote behind contents that JSON allows, and is rejected with JSMN_ERROR_INVAL exactly for a backslash with no escape letter or four hexadecimal digits behind it |
| `JsonRejects.PrimitiveExactly` | c/linux/Aliot/jsmn.c:44-80 | a primitive ends exactly behind visible characters, at a delimiter or the end, and is rejected otherwise |
| `JsonRejects.ExtraBracket` | c/linux/Aliot/jsmn.c:208-220 | a closing bracket too many behind a value is JSMN_ERROR_INVAL |
| `JsonRejects.WrongBracket` | c/linux/Aliot/jsmn.c:208-220 | so is one of the other kind |
| `JsonRejects.Unclosed` | c/linux/Aliot/jsmn.c:292-297 | a container that is not closed is JSMN_ERROR_PART |
| `JsonParse.ParseValue` | c/linux/Aliot/jsmn.c:160-290 | the text of a value inside any text takes the parser to behind it with the value's tokens appended |
| `JsonParse.FewerTokens` | c/linux/Aliot/jsmn.c:11-13 | with fewer tokens the parser does the same or reports that it is out of them |
| `JsonParse.ParsesEveryValue` | c/linux/Aliot/jsmn.c:153-300 | for every value with any white space: the tokens are exactly its preorder list when there are enough, and the error is JSMN_ERROR_NOMEM when there are not |
| `AckHandler.Handler.Handle` | c/linux/Aliot/aliotutil.c:254-298 | on any node of a value the walk returns exactly the number of its tokens and has taken its leaves in order |
| `AckHandler.Handler.HandleObject` | c/linux/Aliot/aliotutil.c:283-289 | the same for an object, key and value in turn |
| `AckHandler.Handler.HandleArray` | c/linux/Aliot/aliotutil.c:290-296 | the same for an array |
| `AckHandler.Handler.HandleLeaf` | c/linux/Aliot/aliotutil.c:261-282 | the text behind "context" is the context, the one behind "http_code" the code |
| `AckHandler.FlatObject` | c/linux/Aliot/aliotutil.c:261-289 | for an object of leaves the context is the string of its last member context that has one, the code what atoi makes of its last member http_code, in any order |
| `AckHandler.ParseHttpAck` | c/linux/Aliot/aliotutil.c:300-313 | parsing and walking an acknowledgement gives the context and code of its leaves |
| `Qos2.Client.UseId` | c/linux/Aliot/MQTTClient.c:88-97 | the id goes to the first free slot |
| `Qos2.Client.FreeId` | c/linux/Aliot/MQTTClient.c:99-107 | the first slot with the id is freed |
| `Qos2.Client.CycleOnce` | c/linux/Aliot/MQTTClient.c:257-335 | table, delivery, answer and result are those of the function Cycle, whether the answer can be sent or not |
| `Qos2.Client.CycleAll` | c/linux/Aliot/MQTTClient.c:257-335 | over a run of packets table and log are those of the history |
| `Qos2.Answers` | c/linux/Aliot/MQTTClient.c:271-323 | in every run a QoS 0 or 1 message is delivered, the second with PUBACK, QoS 2 is answered by PUBREC, PUBREL by PUBCOMP and PUBREC by PUBREL, with the same id |
| `Qos2.DeliveredAsArrived` | c/linux/Aliot/MQTTClient.c:278-279 | in every run a message of QoS 0 or 1 is delivered as often as it arrives |
| `Qos2.AlwaysDistinct` | c/linux/Aliot/MQTTClient.c:78-107 | in every run the nonzero ids in the table are distinct |
| `Qos2.HeldIff` | c/linux/Aliot/MQTTClient.c:271-323 | an id is in the table exactly when it has been delivered and not been freed since |
| `Qos2.FreeSlotIff` | c/linux/Aliot/MQTTClient.c:88-97 | in every run a slot is free exactly when fewer than twenty ids have been delivered and not freed since |
| `Qos2.DeliveredIff` | c/linux/Aliot/MQTTClient.c:278-303 | in every run a QoS 2 message is delivered exactly when its id has not been delivered without being freed since and fewer than twenty ids have; PUBREC answers it in any case |
| `Qos2.AtMostOnce` | c/linux/Aliot/MQTTClient.c:271-323 | between two deliveries under one id a PUBREL has freed it |
| `Qos2.ExactlyOnce` | c/linux/Aliot/MQTTClient.c:271-323 | a PUBLISH that finds its id not held and fewer than twenty held is delivered, and none after it until the id is freed |
| `Qos2.Exchange` | c/linux/Aliot/MQTTClient.c:271-323 | an exchange with a sender that repeats its PUBLISH and then its PUBREL delivers the message once and ends with the id released |
| `Qos2.FullTable` | c/linux/Aliot/MQTTClient.c:88-97 | no slot is free only when twenty different ids are held |
| `Qos2.MessageLost` | c/linux/Aliot/MQTTClient.c:278-303 | after messages with the ids 1 to 20 the one with id 21 is acknowledged and never delivered |
| `TopicFilter.IsTopicMatched` | c/linux/Aliot/MQTTClient.c:168-193 | the pointer loop decides the recursive predicate Loop |
| `TopicFilter.MatchesLevels` | c/linux/Aliot/MQTTClient.c:165-193 | a name matches exactly when it does by section 4.7.1 of MQTT 3.1.1 and every wildcard level stands for a level that is there and not empty |
| `TopicFilter.ParentLevelOnly` | c/linux/Aliot/MQTTClient.c:165-193 | without empty levels the only difference is that F/# does not match F |
| `MqttWire.Encode` | c/linux/MQTTPacket/src/MQTTPacket.c:29-45 | the octets written are the length, seven bits at a time |
| `MqttWire.DecodeBuf` | c/linux/MQTTPacket/src/MQTTPacket.c:54-81 | value and count are those of the decoding loop, which gives up at the fifth octet |
| `MqttWire.DecodesLength` | c/linux/MQTTPacket/src/MQTTPacket.c:29-81 | 0 to 268435455 come back from one to four octets |
| `MqttWire.LengthOctets` | c/linux/MQTTPacket/src/MQTTPacket.c:29-46 | the one to four octets of section 2.2.3 of MQTT 3.1.1 |
| `MqttWire.PacketLenExact` | c/linux/MQTTPacket/src/MQTTPacket.c:84-98 | MQTTPacket_len never underestimates, and is one too large for exactly 127, 16383, 2097150 and 2097151 |
| `MqttWire.LengthsAgree` | c/linux/MQTTPacket/src/MQTTPacket.c:194-251 | the length counted and the string written agree unless a counted string comes with a C string of another length |
| `MqttPublish.SerializePublish` | c/linux/MQTTPacket/src/MQTTSerializePublish.c:55-91 | exactly the packet is written, within buflen, or nothing and -2 |
| `MqttPublish.ValidIff` | c/linux/MQTTPacket/src/MQTTSerializePublish.c:31-41 | the PUBLISH packets are all those with a topic below 65536 octets and a remaining length of at most 268435455 |
| `MqttPublish.PublishOctets` | c/linux/MQTTPacket/src/MQTTSerializePublish.c:70-84 | the octets of section 3.3 |
| `MqttPublish.DeserializePublish` | c/linux/MQTTPacket/src/MQTTDeserializePublish.c:36-69 | code and fields are those of ParsePublish |
| `MqttPublish.PublishRoundTrip` | c/linux/MQTTPacket/src/MQTTDeserializePublish.c:36-69 | every PUBLISH comes back with all its fields |
| `MqttPublish.PublishFailure` | c/linux/MQTTPacket/src/MQTTDeserializePublish.c:46-68 | a topic that cannot be read is reported as success exactly when the length field is one octet: when the first octets are a PUBLISH header, a length below 128, and a topic length that does not fit in it |
| `MqttPublish.ShortPackets` | c/linux/MQTTPacket/src/MQTTDeserializePublish.c:46-105 | a PUBLISH, an acknowledgement and a SUBSCRIBE that are cut short and reported as success |
| `MqttPublish.SerializeAck` | c/linux/MQTTPacket/src/MQTTSerializePublish.c:104-127 | exactly the four octets are written, or nothing and -2 |
| `MqttPublish.AckOctets` | c/linux/MQTTPacket/src/MQTTSerializePublish.c:104-127 | the four octets of sections 3.4 to 3.7 |
| `MqttPublish.DeserializeAck` | c/linux/MQTTPacket/src/MQTTDeserializePublish.c:82-106 | code, type, dup and id are those of ParseAck |
| `MqttPublish.AckRoundTrip` | c/linux/MQTTPacket/src/MQTTDeserializePublish.c:82-106 | every acknowledgement comes back |
| `MqttPublish.AckFailure` | c/linux/MQTTPacket/src/MQTTDeserializePublish.c:95-105 | an acknowledgement too short for its id is reported as success exactly when the length field is one octet, that is, when it is 0 or 1 |
| `MqttPublish.SubscribeLength` | c/linux/MQTTPacket/src/MQTTSubscribeClient.c:28-36 | the length is that of the packet's rest |
| `MqttPublish.SerializeSubscribe` | c/linux/MQTTPacket/src/MQTTSubscribeClient.c:50-86 | exactly the packet is written, within buflen, or nothing and -2 |
| `MqttPublish.SubscribeOctets` | c/linux/MQTTPacket/src/MQTTSubscribeClient.c:50-86 | the octets of section 3.8 |
| `MqttPublish.DeserializeSubscribe` | c/linux/MQTTPacket/src/MQTTSubscribeServer.c:35-70 | code and fields are those of ParseSubscribe |
| `MqttPublish.SubscribeRoundTrip` | c/linux/MQTTPacket/src/MQTTSubscribeServer.c:35-70 | every SUBSCRIBE comes back, with any number of filters |
| `MqttPublish.SubscribeFailure` | c/linux/MQTTPacket/src/MQTTSubscribeServer.c:46-69 | a SUBSCRIBE cut short within a filter is reported as success exactly when the length field is one octet and the octets behind the packet id are not those of any filters |
| `MqttConnect.FlagParts` | c/linux/MQTTPacket/src/MQTTConnectClient.c:90-104 | the flags octet gives back each of its bit fields |
| `MqttConnect.LengthIsExact` | c/linux/MQTTPacket/src/MQTTConnectClient.c:27-48 | the length computed is the size of what is written |
| `MqttConnect.SerializeConnect` | c/linux/MQTTPacket/src/MQTTConnectClient.c:58-121 | exactly the packet is written, within buflen, or nothing and -2 |
| `MqttConnect.ConnectOctets` | c/linux/MQTTPacket/src/MQTTConnectClient.c:73-105 | the octets of section 3.1, and of MQTT 3.1 for version 3 |
| `MqttConnect.DeserializeConnect` | c/linux/MQTTPacket/src/MQTTConnectServer.c:51-108 | code and fields are those of ParseConnect |
| `MqttConnect.ConnectRoundTrip` | c/linux/MQTTPacket/src/MQTTConnectServer.c:51-108 | a CONNECT comes back with all its fields exactly when a password comes with a name, is not empty, and an empty name is followed by a password |
| `Telnet.Escape` | c/Linkit 7681 SDK/Uploader/serial/rfc2217.py:1010-1025 | every IAC is doubled and nothing else changed |
| `Telnet.PortManager.Filter` | c/Linkit 7681 SDK/Uploader/serial/rfc2217.py:1027-1082 | state and events after a chunk are those of the function FeedAll |
| `Telnet.TelnetReadLoop` | c/Linkit 7681 SDK/Uploader/serial/rfc2217.py:684-744 | the client's loop does the same over its chunks |
| `Telnet.PrintedOctets` | c/Linkit 7681 SDK/Uploader/serial/rfc2217.py:964-1025 | the octets of RFC 854, with 44 for the option of RFC 2217 |
| `Telnet.FeedAppend` | c/Linkit 7681 SDK/Uploader/serial/rfc2217.py:1027-1082 | reading a concatenation is reading its parts one after the other |
| `Telnet.AnyChunks` | c/Linkit 7681 SDK/Uploader/serial/rfc2217.py:1027-1082 | the cut into chunks does not matter |
| `Telnet.ReadsItem` | c/Linkit 7681 SDK/Uploader/serial/rfc2217.py:964-1082 | data, an option command or a subnegotiation is read as what was printed |
| `Telnet.ReadsEverything` | c/Linkit 7681 SDK/Uploader/serial/rfc2217.py:964-1082 | any items printed and cut anyhow are read back: the data octets in order, the same options, the same subnegotiations |
| `Telnet.IacsSpent` | c/Linkit 7681 SDK/Uploader/serial/rfc2217.py:1027-1082 | what has been read never accounts for more IACs than arrived |
| `Telnet.SubReadIff` | c/Linkit 7681 SDK/Uploader/serial/rfc2217.py:968-971 | a subnegotiation is read back exactly when its option octet, which is not escaped, is not IAC |

## Left out

- XmodemLink.UploadIsSafe: octets within a packet are not modelled one by one; the link hands over whole packets, or
  octets that are no valid block together with what the receiver makes of them, which is one reply at most. The octets
  of two packets do not run together, and the link adds none. While a single packet is under way, as it is whenever
  there was one start character or no NAK that answers no packet, a receiver with a CRC reads on to the end of what is
  left of a packet or gives up, so it cannot answer one twice.
- Cbc.Encrypt: plaintexts within 16 octets of 2^32 are excluded, their padded size does not fit the 32-bit counter.
- Fota.Download.Update: segments of more than 560 octets and images of 65536 pages or more are excluded, the output
  buffer and the 16-bit page counters do not hold them.
- AckHandler.ParseHttpAck: only the texts of JSON values of at most a hundred tokens, not those that the parser accepts
  leniently or rejects, where the walk may read tokens that were never set; the 1000-octet buffer for a
  token's text is taken to be large enough.
- Jsmn.AnyInput: calls with a null token array, which only count, are not modelled; nothing in the repository makes them.
- MqttPublish.DeserializePublish: octets read behind a malformed packet are taken as zero, C leaves them undefined; the
  same holds for the other deserializers.
- MqttPublish.DeserializeSubscribe: the caller's arrays are sequences that grow, the source does not check maxcount.
- Telnet.PortManager.Filter: the three handlers are events; what they answer (option negotiation, modem state) is not
  part of this model.
- Qos2.Client.CycleOnce: handlers do not publish from inside a delivery; keepalive is left out.
- The branch of `cloud_fota_update` that ends a download: it compares ciphertext counts with a plaintext length, so its
  outcome depends on the segmentation.
- `iot_xmodem_transmit` and the 1K receiver: byte-wide counters break their intent for larger inputs.
- `MQTTPacket_readnb`, CONNACK, UNSUBSCRIBE and SUBACK packets: similar to what is modelled, or differing in the polling
  only.
- `json_handler`: it reprints tokens into buffers and differs from the input for empty containers and key-like values.
- WiFi state machine, AT commands, drivers, HTTP code translation, JSON string builders, date arithmetic: plumbing or
  easier than the rest.
