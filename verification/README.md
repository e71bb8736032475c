# Verified models of the fastboot host tools, fs_mgr, bootstat and an ordered set

The project models the parts of the repository that move bytes, rewrite images, plan work or wait for
events, and proves what each is for. Everything is stated over all inputs, all schedules of the
environment, or all runs.

* **UDP transport** (`UdpHost`, `UdpTrace`, `UdpSystem`, `UdpTransport`). `UdpHost` is the host half of
  the protocol as a step machine over socket events. `UdpTrace` proves properties of every log of that
  machine. `UdpSystem` adds a device and a network that loses, duplicates and reorders datagrams.
  `UdpTransport` is the class with its loops; its invariant says that the socket operations it performed
  are exactly those of a log of the machine, so all trace results hold of it, and `UdpEndToEnd` puts it
  against the device and the network.
* **Vendor boot images** (`VendorBootSpec`, `VendorBootParts`, `VendorBootTheorems`,
  `VendorBootDefault`, `VendorBoot`). `VendorBoot` has the class and the loops, proved equal to the
  pipelines of `VendorBootSpec`. `VendorBootParts` describes an image by its sections; the theorems say
  what the pipelines do to those sections.
* **Boot images** (`BootImage`): page rounding by mask, the header writer, and an independent reader.
* **TCP transport** (`Tcp`): length codec, partial sends and receives, framing.
* **Sparse stream** (`SparseStream`), **flash plan** (`FlashPlan`), **overlay candidates** (`Overlay`),
  **fstab rewriting for dynamic system updates** (`Dsu`, `DsuTheorems`), **kernel command line**
  (`Cmdline`), **mount-all** (`MountAll`), **waiting for a file** (`FileWait`), **bit-error-tolerant
  search** (`BitErrors`), and the linked **ordered set** of the release script (`OrderedSet`).

Conventions. What the outside does (sockets, system calls, the clock, the layout builder) is a parameter:
a finite script of outcomes or a function from question numbers to answers, over which every theorem
quantifies; a script that is used up is a failure or a timeout. Struct sizes and field offsets that come
from headers outside the repository (`bootimg.h`, libavb) are symbolic layouts with ordering conditions
only. Image code that could access memory outside the image, or divide by a page size of zero that it read
back from a header that was never written, has an outcome `Stray` for it, so no precondition hides such
inputs. 32-bit and 64-bit wrap-around of sizes is written out.

Where code and comments disagree the model follows the code:

* A test comment says that the fstab transformation should be idempotent
  (`AOSP/core/fs_mgr/tests/fs_mgr_test.cpp:1119-1122`). It is, except when a `data_gsi` partition comes
  after the last `userdata_gsi` in the list and the fstab lacks a first-stage `/data` entry of one of the
  two file system types; `DsuTheorems.IdempotentIff` states the exact condition and
  `DsuTheorems.NotAlwaysIdempotent` gives an instance.
* `mount_with_alternatives` documents its end index as the last entry looked at. When the run ends the
  table the code returns the table's length instead; `MountAll.MountWithAlternatives` states both cases.
* The matcher's comment bounds errors by bit length over the error rate. The code allows one more for
  suffixes of one or two bytes; `BitErrors.AllowedIs` states the bound.
* Copying the AVB footer is meant to keep it. The seek before it takes a 32-bit offset
  (`AOSP/core/fastboot/vendor_boot_img_utils.cpp:80`), so a footer that starts at 4 GiB or later is looked
  for in the wrong place. `VendorBootTheorems.FragmentFooterIff` and `VendorBootDefault.DefaultFooterIff`
  state that with sections that end before it the footer survives exactly if its offset is below 2^32, and
  `VendorBootDefault.FooterLostAt4GiB` gives the first size at which it is lost.
* A gathering TCP send whose last buffer is empty never completes, because a sent total of zero never
  moves past that buffer. So an empty message is never written successfully; `StreamSocket.Socket.Send`
  and `TcpTransport.Transport.Write` say so. Reading copes with empty messages from a peer.
* A wait can time out although its condition is met and nothing is left to read. `FileWait.BlockedIffMissed`
  states exactly when: the condition was met during the drain that follows a failed check, or it was met
  without an event. There is no event for a file renamed into place, because only created names are
  watched, and none for a file that is deleted, created again and deleted a second time, because the
  watch on the file ends with the first deletion. `FileWait.WakeupCanBeDrained`,
  `FileWait.RenameIsNotHeard` and `FileWait.SecondDeletionIsNotHeard` give a run of each kind.

## Model

| member | source | states |
|---|---|---|
| UdpWire.HeaderCarriesNumber | AOSP/core/fastboot/udp.cpp:86-91 | any wide sequence number, also a negative one, travels as its value modulo 65536 |
| UdpWire.MatchesIff | AOSP/core/fastboot/udp.cpp:93-99 | a reply matches a header exactly if it carries the same number modulo 65536 and the same id or the error id |
| UdpWire.ChunksCutThePayload | AOSP/core/fastboot/udp.cpp:207-251 | the packets of a call concatenate to its payload, all but the last are full and flagged as continued, none exceeds the maximum, and there is at least one |
| UdpWire.FlagsMean | AOSP/core/fastboot/udp.cpp:303-310 | a reply asks for more exactly if the continuation bit of its flags is set |
| UdpHost.OneReading | AOSP/core/fastboot/udp.cpp:266-286 | whatever a waiting host receives, exactly one of failing, passing over and accepting applies |
| UdpHost.StepKeepsInv | AOSP/core/fastboot/udp.cpp:207-326 | every host step keeps the bookkeeping: packets issued plus the rest are the payloads begun, one packet per reply plus the one in flight, attempts within budget |
| UdpTrace.RunKeepsInv | AOSP/core/fastboot/udp.cpp:207-326 | the same for every log of any length |
| UdpTrace.IssuedCarryPayloads | AOSP/core/fastboot/udp.cpp:215-250 | in every log the data of the packets issued so far, followed by what is not cut yet, is the concatenation of all payloads begun |
| UdpTrace.NumbersInStep | AOSP/core/fastboot/udp.cpp:281-286 | the number of packets issued is the number of replies accepted, plus one while a call is active |
| UdpTrace.SentAreIssued | AOSP/core/fastboot/udp.cpp:260-264 | every datagram ever sent is the one issued under its number |
| UdpTrace.RetransmissionsAreIdentical | AOSP/core/fastboot/udp.cpp:260-285 | two datagrams sent under one unwrapped number are byte-identical and within the negotiated size |
| UdpTrace.NumberedByReplies | AOSP/core/fastboot/udp.cpp:260-286 | the number of a transmission is the first number plus the replies accepted before it, and each accepted reply carries the number in flight |
| UdpTrace.StopAndWait | AOSP/core/fastboot/udp.cpp:260-286 | before a number is sent a reply matching its predecessor was accepted; smaller numbers are only sent before that reply, this and greater ones only after it |
| UdpTrace.TransmissionsBounded | AOSP/core/fastboot/udp.cpp:259-285 | no number is transmitted more often than the attempts of the call that sends it |
| UdpTrace.BudgetKept | AOSP/core/fastboot/udp.cpp:259-285 | transmissions of the current number and attempts left always add up to the call's attempts |
| UdpTrace.CompletedCallSentItsChunks | AOSP/core/fastboot/udp.cpp:219-248 | the packets a successful call has put on the wire, without prompts and counting each once, are exactly those its payload is cut into: they concatenate to it and all but the last are flagged as continued |
| UdpTrace.PromptsAreEmpty | AOSP/core/fastboot/udp.cpp:303-310 | every transmission after a continued reply is the empty prompt with the id of that reply |
| UdpTrace.EveryNumberTransmitted | AOSP/core/fastboot/udp.cpp:260-286 | every number that was answered was transmitted at least once |
| UdpTrace.SentInThisCall | AOSP/core/fastboot/udp.cpp:219-248 | transmissions of the number in flight all belong to the call in progress |
| UdpTrace.RepliesCollected | AOSP/core/fastboot/udp.cpp:288-325 | what a call collects is exactly the payload of its accepted non-error replies, and it waits under the error id exactly after an error reply, so that it can no longer succeed |
| UdpTrace.AnswerIsCollected | AOSP/core/fastboot/udp.cpp:288-325 | a call answered by the packets of any reply, cut at any size, goes on until the last of them and then has collected exactly the reply |
| UdpSystem.AcceptedReplyIsCurrent | AOSP/core/fastboot/udp.cpp:266-286 | with nothing older than 65535 numbers in the network, a reply the host accepts answers the packet in flight |
| UdpSystem.ProcessedRequestIsCurrent | AOSP/core/fastboot/udp.cpp:260-264 | and the device only ever processes the packet in flight |
| UdpSystem.NextKeepsInv | AOSP/core/fastboot/udp.cpp:207-326 | every move of host, device or network keeps the system invariant |
| UdpSystem.RunKeepsSysInv | AOSP/core/fastboot/udp.cpp:207-326 | it holds in every reachable state |
| UdpSystem.DeviceAcceptsExactlyThePayloads | AOSP/core/fastboot/udp.cpp:207-326 | in every run up to the first failed call the device has accepted the issued packets, each once and in order, its bytes are a prefix of the payloads begun, and between calls all of them |
| UdpSystem.HostHearsExactlyTheAnswers | AOSP/core/fastboot/udp.cpp:266-301 | the replies the host accepted are the device's answers, each once and in order |
| UdpSystem.HostPartIsHostRun | AOSP/core/fastboot/udp.cpp:207-326 | the host's part of a system run is a run of the host machine, so the trace results apply |
| UdpSystem.LogIsAccepted | AOSP/core/fastboot/udp.cpp:207-326 | what the device has accepted is a prefix of the payloads in the host's log, and all of them between calls |
| UdpEndToEnd.WrittenIsAccepted | AOSP/core/fastboot/udp.cpp:207-362 | the same for the log of the transport object: after its successful calls the device has exactly what was written |
| UdpEndToEnd.ReadIsWholeReply | AOSP/core/fastboot/udp.cpp:328-345 | a read that is answered so returns the whole reply |
| UdpTransport.Socket.Receive | AOSP/core/fastboot/socket.cpp:157-171 | a receive yields a datagram cut to the buffer, or -1 with the timeout flag set or not |
| UdpTransport.Transport.ReceiveMatching | AOSP/core/fastboot/udp.cpp:266-280 | ends with a matching datagram, a timeout, or a fatal error; ignored datagrams do not match |
| UdpTransport.Transport.Exchange | AOSP/core/fastboot/udp.cpp:260-286 | one transmission and its outcome is a step sequence of the host machine; the sequence number moves exactly on a reply |
| UdpTransport.Transport.SendSinglePacket | AOSP/core/fastboot/udp.cpp:253-326 | handles retries, errors and continuation replies of one packet; -1 only in the failed state, otherwise the collected bytes are in the buffer as far as they fit |
| UdpTransport.Transport.SendData | AOSP/core/fastboot/udp.cpp:207-251 | extends the log by one call of the machine for the whole payload; returns the number of reply bytes, which are in the buffer as far as they fit |
| UdpTransport.Transport.Read | AOSP/core/fastboot/udp.cpp:328-345 | extends the log by one empty call; on success the buffer holds exactly the payload of all accepted replies, nothing lost, repeated or cut, and no error reply was among them; it fails only on a failed call or an overflow |
| UdpTransport.Transport.Write | AOSP/core/fastboot/udp.cpp:347-362 | extends the log by one call; on success the packets on the wire are the cut of the data and only empty replies came; it fails only on a failed call or unexpected data |
| UdpTransport.Transport.InitializeProtocol | AOSP/core/fastboot/udp.cpp:153-203 | the socket saw exactly the logs of two calls; on success numbers continue the one in the first reply by those the second call used, and the packet size is the minimum of the host's and the one in the second reply; it fails only for the listed reasons |
| VendorBoot.DataUpdater.constructor | AOSP/core/fastboot/vendor_boot_img_utils.cpp:33-37 | both cursors at the start, new image all zeros |
| VendorBoot.DataUpdater.Copy | AOSP/core/fastboot/vendor_boot_img_utils.cpp:39-49 | result and new state are those of the pipeline step, errors included |
| VendorBoot.DataUpdater.Replace | AOSP/core/fastboot/vendor_boot_img_utils.cpp:54-68 | the same for replacing |
| VendorBoot.DataUpdater.Skip | AOSP/core/fastboot/vendor_boot_img_utils.cpp:70-78 | the same for skipping |
| VendorBoot.DataUpdater.Seek | AOSP/core/fastboot/vendor_boot_img_utils.cpp:80-85 | the same for seeking |
| VendorBoot.DataUpdater.CheckOffset | AOSP/core/fastboot/vendor_boot_img_utils.cpp:92-100 | accepts exactly the current cursor positions |
| VendorBoot.DataUpdater.CopyFooter | AOSP/core/fastboot/vendor_boot_img_utils.cpp:197-202 | looks for the magic at the footer's offset modulo 2^32 and copies the footer's length from there exactly if it is found |
| VendorBoot.FindUniqueRamdisk | AOSP/core/fastboot/vendor_boot_img_utils.cpp:278-300 | the loop computes the specified search |
| VendorBoot.CopyRamdisk | AOSP/core/fastboot/vendor_boot_img_utils.cpp:345-362 | the fragment loop refines its recursive specification |
| VendorBoot.CopyRamdiskTable | AOSP/core/fastboot/vendor_boot_img_utils.cpp:377-388 | the table loop refines its recursive specification |
| VendorBoot.Reconstruct | AOSP/core/fastboot/vendor_boot_img_utils.cpp:338-399 | writing the new sections refines its specification |
| VendorBoot.UpdateHeader | AOSP/core/fastboot/vendor_boot_img_utils.cpp:226-236 | stores the sizes of a single ramdisk, and the table fields exactly if the new header says version 4 |
| VendorBoot.CopyTail | AOSP/core/fastboot/vendor_boot_img_utils.cpp:241-271 | padding, device tree, table and bootconfig by the sizes in the new header |
| VendorBoot.ReplaceVendorRamdiskFragment | AOSP/core/fastboot/vendor_boot_img_utils.cpp:304-403 | the imperative replacement equals the pipeline on every input, fields of the new header being read back where the source does |
| VendorBoot.ReplaceDefaultVendorRamdisk | AOSP/core/fastboot/vendor_boot_img_utils.cpp:211-275 | the same for the whole ramdisk |
| VendorBoot.ReplaceVendorRamdisk | AOSP/core/fastboot/vendor_boot_img_utils.cpp:407-432 | size limit, then one of the two by name |
| VendorBootTheorems.FindsTheOnlyOne | AOSP/core/fastboot/vendor_boot_img_utils.cpp:278-300 | the search returns an index exactly if that entry alone has the name |
| VendorBootTheorems.CStringIs | AOSP/core/fastboot/vendor_boot_img_utils.cpp:285-288 | a name field is read up to its first zero, or in full if it has none |
| VendorBootTheorems.RebuildIs | AOSP/core/fastboot/vendor_boot_img_utils.cpp:338-399 | rebuilding leaves the edited sections in the new image and both cursors behind them, or fails exactly if they do not fit |
| VendorBootTheorems.ReplaceFragmentEdits | AOSP/core/fastboot/vendor_boot_img_utils.cpp:304-403 | on every well-formed version 4 image, of any length, replacing a uniquely named fragment succeeds exactly if the edited sections fit and yields them, zeros, and the footer if there is one where it is looked for |
| VendorBootTheorems.ReplaceFragmentRefuses | AOSP/core/fastboot/vendor_boot_img_utils.cpp:328-333 | a name with no entry or several is refused |
| VendorBootTheorems.ReplaceNamedFragment | AOSP/core/fastboot/vendor_boot_img_utils.cpp:304-403 | in an image whose entries carry given names padded with zeros, replacing by a name edits the entry of that name, and refuses one that is absent or occurs twice |
| VendorBootTheorems.ReplacedImageHolds | AOSP/core/fastboot/vendor_boot_img_utils.cpp:304-403 | below the footer, and with the footer looked for at the end or not found, the result has the old length, is well formed with exactly the edited sections (offsets are prefix sums, header size is their sum, padding zero) and is zero up to the footer |
| VendorBootTheorems.ReplacedImageReadBack | AOSP/core/fastboot/vendor_boot_img_utils.cpp:304-403 | reading the result through its own header and table returns the new ramdisk at the index and every other fragment unchanged |
| VendorBootTheorems.LastWriteWins | AOSP/core/fastboot/vendor_boot_img_utils.cpp:304-403 | replacing with A and then B is replacing with B, wherever the footer is looked for at the end or not found |
| VendorBootTheorems.FooterKeptIff | AOSP/core/fastboot/vendor_boot_img_utils.cpp:197-202 | an image of sections, zeros and the copied footer has the old footer exactly if its offset is below 2^32 |
| VendorBootTheorems.FragmentFooterIff | AOSP/core/fastboot/vendor_boot_img_utils.cpp:304-403 | replacing a fragment with sections that end before the footer succeeds and keeps it exactly if its offset is below 2^32 |
| VendorBootParts.EditKeepsPartsOk | AOSP/core/fastboot/vendor_boot_img_utils.cpp:345-388 | an edited section list is described by its header and table again |
| VendorBootParts.EditTwice | AOSP/core/fastboot/vendor_boot_img_utils.cpp:345-388 | the second edit of a fragment hides the first, byte for byte |
| VendorBootParts.EntryReadBack | AOSP/core/fastboot/vendor_boot_img_utils.cpp:329-330 | table entry i of a well-formed image holds the prefix sum and the size of fragment i |
| VendorBootParts.FragmentReadBack | AOSP/core/fastboot/vendor_boot_img_utils.cpp:345-360 | reading fragment i by offset and size returns it |
| VendorBootDefault.ReplaceDefaultEdits | AOSP/core/fastboot/vendor_boot_img_utils.cpp:211-275 | on every well-formed image of version 3 or 4, of any length, replacing the whole ramdisk succeeds exactly if the new sections fit and yields them, zeros, and the footer if there is one where it is looked for |
| VendorBootDefault.LastDefaultWins | AOSP/core/fastboot/vendor_boot_img_utils.cpp:211-275 | last write wins for whole ramdisks |
| VendorBootDefault.DefaultIsOneFragment | AOSP/core/fastboot/vendor_boot_img_utils.cpp:228-267 | the new table describes one fragment, the whole ramdisk |
| VendorBootDefault.FooterSurvives | AOSP/core/fastboot/vendor_boot_img_utils.cpp:197-202 | a footer whose offset is below 2^32 survives every sequence of successful replacements of either kind, on any image |
| VendorBootDefault.DefaultFooterIff | AOSP/core/fastboot/vendor_boot_img_utils.cpp:211-275 | replacing the whole ramdisk with sections that end before the footer succeeds and keeps it exactly if its offset is below 2^32 |
| VendorBootDefault.CopyFooterIff | AOSP/core/fastboot/vendor_boot_img_utils.cpp:197-202 | on any image whose new sections leave the footer's place empty, copying fills it exactly if its offset is below 2^32 |
| VendorBootDefault.FooterLostAt4GiB | AOSP/core/fastboot/vendor_boot_img_utils.cpp:80-85 | on every well-formed image of 2^32 bytes and a footer the seek goes to 0 and the footer is lost |
| PageMask.AndClears | AOSP/core/fastboot/bootimg_utils.cpp:91-97 | bitwise AND with the complement mask rounds down to a multiple of the power of two |
| PageMask.MaskRoundIsRoundUp | AOSP/core/fastboot/bootimg_utils.cpp:54-55 | mask rounding equals division rounding for every power of two while nothing overflows |
| HeaderFields.StoreOne | AOSP/core/fastboot/bootimg_utils.cpp:107-122 | storing a field truncates to 32 bits and disturbs neither other fields nor other bytes |
| BootImage.CopySections | AOSP/core/fastboot/bootimg_utils.cpp:124-129 | exactly when all four sections are in bounds they are written; in slots that hold them none overlaps another or what lies before |
| BootImage.WriteHeader | AOSP/core/fastboot/bootimg_utils.cpp:102-122 | exactly the listed fields differ from the source header, addresses move by the base with wrap-around |
| BootImage.WriteHeader3 | AOSP/core/fastboot/bootimg_utils.cpp:61-73 | the version 3 header fields, everything else in the page as it was |
| BootImage.MakeV3 | AOSP/core/fastboot/bootimg_utils.cpp:50-77 | the image is one header page and the two sections at page boundaries |
| BootImage.Make | AOSP/core/fastboot/bootimg_utils.cpp:91-130 | for every power-of-two page at least the header size nothing is out of bounds and the image holds header and sections |
| BootImage.MakeBootImage | AOSP/core/fastboot/bootimg_utils.cpp:79-130 | ends the program exactly for version 3 or above with a second stage or DTB, otherwise as above |
| BootImage.ReadBack | AOSP/core/fastboot/bootimg_utils.cpp:104-122 | the header of a built image reads back sizes, page size and version |
| BootImage.Read64Written | AOSP/core/fastboot/bootimg_utils.cpp:116-121 | a 64-bit number written as two little-endian halves reads back |
| BootImage.AddressesReadBack | AOSP/core/fastboot/bootimg_utils.cpp:107-122 | every address of a built image is the one of the source header moved by the base, modulo the field width, and the header size is that of the version |
| BootImage.CutReturnsInputs | AOSP/core/fastboot/bootimg_utils.cpp:79-130 | cutting a built image by its header with division rounding returns the four inputs exactly if each size fits its field and a DTB comes with version 2 |
| BootImage.CutReturnsInputs3 | AOSP/core/fastboot/bootimg_utils.cpp:50-77 | the same for kernel and ramdisk of version 3 and above |
| MessageLength.ValueOfBigEndian | AOSP/core/fastboot/tcp.cpp:41-54 | decoding undoes encoding for every length that fits |
| MessageLength.BigEndianOfValue | AOSP/core/fastboot/tcp.cpp:41-54 | encoding undoes decoding for every byte string |
| MessageLength.EncodeMessageLength | AOSP/core/fastboot/tcp.cpp:50-54 | the shifting loop writes the big-endian digits |
| MessageLength.ExtractMessageLength | AOSP/core/fastboot/tcp.cpp:41-47 | the joining loop computes their value |
| StreamSocket.AdvanceDropsSent | AOSP/core/fastboot/socket.cpp:211-225 | moving past sent bytes leaves exactly the unsent ones |
| StreamSocket.AdvanceEnd | AOSP/core/fastboot/socket.cpp:211-230 | nothing is left exactly if all was sent and the last buffer is not empty |
| StreamSocket.Socket.Send | AOSP/core/fastboot/socket.cpp:202-234 | for every schedule of partial sends the wire gets a prefix of the buffers, all of them on success, and it succeeds if sends only make progress |
| StreamSocket.Socket.SkipSent | AOSP/core/fastboot/socket.cpp:212-224 | the inner loop refines the recursive form |
| StreamSocket.Socket.Receive | AOSP/core/fastboot/socket.cpp:236-242 | one receive takes a front part of the stream |
| StreamSocket.Socket.ReceiveAll | AOSP/core/fastboot/socket.cpp:55-73 | returns the front of the stream, as much as asked for while receives yield, -1 only if nothing came |
| TcpTransport.Transport.ReadHeader | AOSP/core/fastboot/tcp.cpp:133-141 | a header is read only between messages and is the next message's length, which may be zero |
| TcpTransport.Transport.Read | AOSP/core/fastboot/tcp.cpp:128-154 | returns a front part of the current message, never across a boundary, nothing for an empty message; afterwards the stream is aligned or the transport closed |
| TcpTransport.Transport.Write | AOSP/core/fastboot/tcp.cpp:156-170 | success means the whole frame went out, failure closes the transport |
| TcpTransport.Transport.WriteAll | AOSP/core/fastboot/tcp.cpp:156-170 | a run of writes puts exactly the frames on the wire, and succeeds if sends only make progress |
| TcpTransport.Transport.ReadRun | AOSP/core/fastboot/tcp.cpp:128-154 | any sequence of reads returns the messages in order, each read inside one message, and what is left is the rest |
| TcpTransport.FirstFrame | AOSP/core/fastboot/tcp.cpp:133-141 | the first eight bytes of a frame stream decode to the first message's length |
| TcpTransport.RoundTrip | AOSP/core/fastboot/tcp.cpp:128-170 | for all messages, send and receive schedules and read sizes, reads return the written bytes in order and within messages, all of them before the transport closes if receives do not fail |
| OrderedSet.Unlink | scripts/release.py:57-58 | relinking two neighbours takes exactly one node out of the ring |
| OrderedSet.Append | scripts/release.py:32-34 | the new node closes the ring behind the last one |
| OrderedSet.Set.constructor | scripts/release.py:16-19 | a lone sentinel is the empty set |
| OrderedSet.Set.Contains | scripts/release.py:26-27 | membership in the list of keys |
| OrderedSet.Set.Length | scripts/release.py:23-24 | the dictionary's size is the number of keys |
| OrderedSet.Set.Add | scripts/release.py:30-34 | ring and dictionary stay in agreement, a new key goes to the end |
| OrderedSet.Set.Discard | scripts/release.py:54-58 | a present key disappears and all others keep their order |
| OrderedSet.Set.Pop | scripts/release.py:74-79 | removes and returns the last or first key, or raises on an empty set |
| OrderedSet.Set.ToList | scripts/release.py:60-65 | forward links list the keys |
| OrderedSet.Set.Reversed | scripts/release.py:67-72 | backward links list the exact reverse |
| OrderedSet.Set.Update | scripts/release.py:20-21 | adding an iterable is adding its keys in turn |
| OrderedSet.Set.Run | scripts/release.py:15-79 | every sequence of operations keeps the invariant and equals the sequence model |
| OrderedSet.InsertionOrder | scripts/release.py:15-79 | whatever the operations, keys are distinct and in the order of their latest insertion |
| OrderedSet.DiscardUndoesAdd | scripts/release.py:30-58 | discarding a key just added restores the set |
| OrderedSet.RebuildFromList | scripts/release.py:36-52 | loading a saved set gives the same set |
| OrderedSet.UpdatedKeepsPrefix | scripts/release.py:20-21 | union keeps the first operand as a prefix and has exactly the keys of both |
| SparseStream.Driver.SendBuffer | AOSP/core/fastboot/fastboot_driver.cpp:562-580 | an empty buffer is refused, a success writes the buffer once |
| SparseStream.Driver.SparseWriteCallback | AOSP/core/fastboot/fastboot_driver.cpp:597-628 | written bytes followed by the residue are all input so far, the residue is shorter than a chunk, writes are whole chunks |
| SparseStream.Driver.Download | AOSP/core/fastboot/fastboot_driver.cpp:277-294 | for every cut of the input, success means exactly the input was written, no write is empty and all but the last are whole chunks |
| FlashPlan.SuperFlashHelper.AddPartition | AOSP/core/fastboot/super_flash_helper.cpp:43-71 | which partitions join the layout, which are passed over, which fail |
| FlashPlan.InitializeFromTasks | AOSP/core/fastboot/task.cpp:174-242 | when the layout is built, what it holds and which tasks are left |
| FlashPlan.RemoveFlashed | AOSP/core/fastboot/task.cpp:228-239 | removal keeps exactly the survivors in order |
| FlashPlan.AddResizeTasks | AOSP/core/fastboot/fastboot.cpp:1640-1664 | all resizes are inserted before the first dynamic flash; the program ends exactly if a name needs all slots |
| FlashPlan.Plan | AOSP/core/fastboot/fastboot.cpp:1742-1758 | the plan is the optimised or the resized list, and when which |
| FlashPlan.SurvivorFrom | AOSP/core/fastboot/task.cpp:228-239 | survivors keep their relative order and none is repeated |
| FlashPlan.OptimisedPlanConserves | AOSP/core/fastboot/fastboot.cpp:1742-1755 | each flash task is kept or its partition is in the layout, never both; the layout holds only partitions of removed tasks; it precedes every wipe and dynamic flash; no reboot and no super update is left, and nothing but the layout is new |
| FlashPlan.SlotSuffix | AOSP/core/fastboot/fastboot.cpp:1550-1563 | the full name is the partition with the slot, by default the current one, as a suffix; all slots have no one name |
| FlashPlan.ResizeOf | AOSP/core/fastboot/fastboot.cpp:1645-1655 | each dynamic flash has its resize, at the place given by the dynamic ones before it |
| FlashPlan.ResizeFrom | AOSP/core/fastboot/fastboot.cpp:1645-1655 | each resize comes from one dynamic flash |
| FlashPlan.ResizedPlanConserves | AOSP/core/fastboot/fastboot.cpp:1640-1664 | taking the resizes out gives the list back, and they precede every dynamic flash |
| Overlay.CandidateList | AOSP/core/fs_mgr/fs_mgr_overlayfs.cpp:1273-1314 | the list is exactly the copies of the selected entries: eligible, first for their mount point, without an eligible proper ancestor |
| Overlay.AboveByComponents | AOSP/core/fs_mgr/fs_mgr_overlayfs.cpp:1298-1311 | a mount point is above another exactly if its path components are a proper prefix of the other's, and covers it exactly if they are a prefix |
| Overlay.CandidateIs | AOSP/core/fs_mgr/fs_mgr_overlayfs.cpp:1250-1296 | a candidate is mounted first with its type, and without an overlay is read-only, bindable, enabled and left to no other owner |
| Overlay.EntryIsCovered | AOSP/core/fs_mgr/fs_mgr_overlayfs.cpp:1250-1296 | conversely every such entry, and every mounted one with an overlay, is covered by a candidate |
| Overlay.CandidateIsMounted | AOSP/core/fs_mgr/fs_mgr_overlayfs.cpp:1280-1289 | nothing that is not mounted is a candidate |
| Overlay.Insert | AOSP/core/fs_mgr/fs_mgr_overlayfs.cpp:1298-1311 | the erasing loop on an antichain adds an uncovered entry and removes what it covers, and leaves the list alone for a covered one |
| Overlay.CandidatesAreAntichain | AOSP/core/fs_mgr/fs_mgr_overlayfs.cpp:1298-1311 | no candidate covers another |
| Overlay.CandidatesCover | AOSP/core/fs_mgr/fs_mgr_overlayfs.cpp:1273-1314 | every eligible entry is covered by a candidate |
| Overlay.CoveredErasesNothing | AOSP/core/fs_mgr/fs_mgr_overlayfs.cpp:1298-1311 | an erase is never followed by finding a duplicate |
| Overlay.CandidatesSnoc | AOSP/core/fs_mgr/fs_mgr_overlayfs.cpp:1280-1312 | how one more entry changes the selected set |
| Dsu.RewriteReadOnly | AOSP/core/fs_mgr/fs_mgr_fstab.cpp:635-653 | the loop rewrites exactly the matching entries and finds the missing types |
| Dsu.InsertMissing | AOSP/core/fs_mgr/fs_mgr_fstab.cpp:655-672 | missing entries go behind the first matching group or to the end |
| Dsu.RewriteUserdata | AOSP/core/fs_mgr/fs_mgr_fstab.cpp:607-617 | exactly the `/data` entries are converted |
| Dsu.TransformFstabForDsu | AOSP/core/fs_mgr/fs_mgr_fstab.cpp:595-675 | the nested loops equal the specified transformation |
| DsuTheorems.ReadOnlyIff | AOSP/core/fs_mgr/fs_mgr_fstab.cpp:598-626 | of the names with the suffix of an installed image exactly those of scratch and user data are no read-only partitions; the others are mounted under the name without it |
| DsuTheorems.TransformIgnores | AOSP/core/fs_mgr/fs_mgr_fstab.cpp:598-672 | partitions of other names, the scratch partition among them, change nothing wherever they are in the list |
| DsuTheorems.InsertedEntries | AOSP/core/fs_mgr/fs_mgr_fstab.cpp:655-672 | into an empty table a read-only partition goes as exactly two entries, one per type, with its names, mount point, keys and flags |
| DsuTheorems.AllIsClosed | AOSP/core/fs_mgr/fs_mgr_fstab.cpp:598-653 | what a partition list does to an entry depends only on the one partition for its mount point, on user data, and on which came last |
| DsuTheorems.IdempotentIff | AOSP/core/fs_mgr/fs_mgr_fstab.cpp:595-675 | transforming twice is transforming once, exactly unless a `data_gsi` insertion comes after the last user data |
| DsuTheorems.NotAlwaysIdempotent | AOSP/core/fs_mgr/fs_mgr_fstab.cpp:595-675 | an instance of the exception |
| DsuTheorems.IdempotentWithoutDataPartition | AOSP/core/fs_mgr/tests/fs_mgr_test.cpp:1119-1125 | idempotent for every fstab when the list does not target `/data` both ways |
| DsuTheorems.TransformLacking | AOSP/core/fs_mgr/fs_mgr_fstab.cpp:629-672 | afterwards every read-only mount point of the list has both types, and other mount points got none |
| DsuTheorems.Origin | AOSP/core/fs_mgr/fs_mgr_fstab.cpp:595-675 | every resulting entry is an old one rewritten or one inserted for a missing type |
| DsuTheorems.Persists | AOSP/core/fs_mgr/fs_mgr_fstab.cpp:595-675 | no entry is lost on the way |
| DsuTheorems.TransformKeepsUnrelated | AOSP/core/fs_mgr/fs_mgr_fstab.cpp:595-675 | unrelated entries are unchanged and in order |
| DsuTheorems.TransformKeepsContiguous | AOSP/core/fs_mgr/fs_mgr_fstab.cpp:655-672 | contiguous first-stage groups stay contiguous |
| Cmdline.FindEnd | AOSP/core/fs_mgr/fs_mgr_boot_config.cpp:36-43 | the find-based scan ends a piece where the one-pass splitter does |
| Cmdline.RemoveQuotes | AOSP/core/fs_mgr/fs_mgr_boot_config.cpp:44-47 | a piece loses exactly its quotes |
| Cmdline.ParseCmdline | AOSP/core/fs_mgr/fs_mgr_boot_config.cpp:29-61 | equals the one-pass quote-toggling splitter on every string |
| Cmdline.ParsePrinted | AOSP/core/fs_mgr/fs_mgr_boot_config.cpp:29-61 | parsing undoes printing of any pairs with plain keys, whether a pair is a bare word with an empty value, an unquoted value without spaces or a quoted value |
| FileWait.NextKeepsInv | AOSP/core/fs_mgr/file_wait.cpp:93-206 | every step of the waiter or another process, for both variants and with the end of the watch, keeps the invariant |
| FileWait.RunKeepsInv | AOSP/core/fs_mgr/file_wait.cpp:93-206 | it holds in every interleaving |
| FileWait.SuccessWasSeen | AOSP/core/fs_mgr/file_wait.cpp:180-189 | success only if the condition held at some check |
| FileWait.BlockedIffMissed | AOSP/core/fs_mgr/file_wait.cpp:150-177 | when the poll would block, the condition holds exactly if it was met during a drain or without an event, and there was no check since |
| FileWait.TimeoutIffMissed | AOSP/core/fs_mgr/file_wait.cpp:150-152 | a listening wait that times out with nothing left unread has its condition met exactly if the meeting was missed |
| FileWait.GapMeansMissed | AOSP/core/fs_mgr/file_wait.cpp:150-177 | the history flag used in the invariant means that of every run |
| FileWait.NoLostWakeup | AOSP/core/fs_mgr/file_wait.cpp:150-177 | if nothing is missed, neither the poll blocks nor the wait times out with the condition met and nothing queued |
| FileWait.WakeupCanBeDrained | AOSP/core/fs_mgr/file_wait.cpp:175-176 | a run in which the only event is drained away and the wait times out |
| FileWait.RenameIsNotHeard | AOSP/core/fs_mgr/file_wait.cpp:110-117 | a run in which a file renamed into place queues no event and the wait times out |
| FileWait.SecondDeletionIsNotHeard | AOSP/core/fs_mgr/file_wait.cpp:110-117 | a run in which every deletion under watch is heard and the second deletion is still missed |
| FileWait.SleepsAfterACheck | AOSP/core/fs_mgr/file_wait.cpp:41-53 | the polling loop looks at the clock only after a failed check of its own |
| OneShotInotify.LateIsLast | AOSP/core/fs_mgr/file_wait.cpp:41-53 | the first look at the clock that finds the time over is the last thing a wait does, in both loops |
| OneShotInotify.EndedLate | AOSP/core/fs_mgr/file_wait.cpp:144-152 | and a wait that ends without success ended at such a look |
| OneShotInotify.ChangesMean | AOSP/core/fs_mgr/file_wait.cpp:110-117 | what other processes do between two calls: the last change decides the condition, and events only queue up |
| OneShotInotify.WatchStays | AOSP/core/fs_mgr/file_wait.cpp:110-117 | a watch on a directory outlives created names, and one on a file what is silent |
| OneShotInotify.Waiter.constructor | AOSP/core/fs_mgr/file_wait.cpp:93-125 | construction ends in success, in listening, or in the fallback |
| OneShotInotify.Waiter.Listen | AOSP/core/fs_mgr/file_wait.cpp:103-124 | the watch is checked again after it is added |
| OneShotInotify.Waiter.CheckCompleted | AOSP/core/fs_mgr/file_wait.cpp:180-189 | a check is a check move of the machine |
| OneShotInotify.Waiter.ConsumeEvents | AOSP/core/fs_mgr/file_wait.cpp:191-206 | reads as the script says until nothing is queued, or falls back when a read fails |
| OneShotInotify.Waiter.WaitImpl | AOSP/core/fs_mgr/file_wait.cpp:144-178 | success, timeout and error are the machine's states, and each act is the one that the next turn of the script asks for |
| OneShotInotify.Waiter.PollForFile | AOSP/core/fs_mgr/file_wait.cpp:41-67 | the polling loop ends in the machine's final states, acting on the script turn by turn |
| OneShotInotify.Waiter.Wait | AOSP/core/fs_mgr/file_wait.cpp:127-142 | every wait is a run of the machine that obeys its script; true only if a check saw the condition, false exactly if a look at the clock found the time over |
| MountAll.World.TryEntry | AOSP/core/fs_mgr/fs_mgr.cpp:922-956 | one attempt per alternative: no mount call without a valid superblock, at most two with one, and success exactly if one of them succeeds |
| MountAll.MountWithAlternatives | AOSP/core/fs_mgr/fs_mgr.cpp:894-969 | alternatives are tried in order up to the first that mounts; which index is returned; a tried alternative for the same logical partition uses the first one's device, nothing else changes |
| MountAll.TryRun | AOSP/core/fs_mgr/fs_mgr.cpp:1468-1590 | after a run the index goes behind it, or back to its first entry exactly after a format of its partition; the outcome of a failed run is what the rule for failures says of its entry, device and wiped partitions; which devices the table has then |
| MountAll.AfterFailure | AOSP/core/fs_mgr/fs_mgr.cpp:1514-1590 | a failed run is formatted exactly if the failure may be retried, the entry is formattable, its partition is wiped, encryption does not take over and the format succeeds |
| MountAll.Round | AOSP/core/fs_mgr/fs_mgr.cpp:1382-1590 | one round of the loop: what is visited, and when it ends the loop as failed |
| MountAll.FormatsOnlyWiped | AOSP/core/fs_mgr/fs_mgr.cpp:1520-1552 | over all visits only formattable entries on partitions wiped at the start are formatted |
| MountAll.FormatsOnce | AOSP/core/fs_mgr/fs_mgr.cpp:1520-1552 | no partition is formatted twice |
| MountAll.MountAllEntries | AOSP/core/fs_mgr/fs_mgr.cpp:1367-1604 | the loop ends for all answers; visits tile the table, attempts, formats, wiped partitions and the devices tried are those of the visits and each follows the rule for failures; it finishes exactly with every entry passed, and fails exactly at an entry that cannot be opened or a mount that is fatal |
| MountAll.NeverBack | AOSP/core/fs_mgr/fs_mgr.cpp:1381-1382 | visits never go behind an earlier one |
| MountAll.OneMountPerRun | AOSP/core/fs_mgr/fs_mgr.cpp:901-914 | at most one alternative of a run is mounted over all visits |
| MountAll.VisitsBounded | AOSP/core/fs_mgr/fs_mgr.cpp:1381-1552 | no more visits than entries and formats together |
| MountAll.EveryEntryVisited | AOSP/core/fs_mgr/fs_mgr.cpp:1381-1382 | a finished loop has visited every entry |
| BitErrors.OneFlip | AOSP/core/bootstat/bootstat.cpp:579 | flipping one bit changes the number of bits by one, so that is the number of errors |
| BitErrors.AllowedIs | AOSP/core/bootstat/bootstat.cpp:606 | a suffix of k bytes may have k errors, one more if k is at most 2 |
| BitErrors.NumError | AOSP/core/bootstat/bootstat.cpp:591-611 | accepts a window exactly if every byte has at most two errors and every suffix is within its bound, and then returns the Hamming distance |
| BitErrors.ExactIsAccepted | AOSP/core/bootstat/bootstat.cpp:591-611 | an exact occurrence is always accepted |
| BitErrors.Find | AOSP/core/bootstat/bootstat.cpp:638-647 | the first accepted window from a start, or none |
| BitErrors.RFind | AOSP/core/bootstat/bootstat.cpp:620-635 | the last exact occurrence, otherwise the last accepted window, otherwise none |
| BitErrors.CorrectForBitError | AOSP/core/bootstat/bootstat.cpp:654-670 | replaces accepted windows left to right; keeps the length, reports a change exactly if there is one, flips at most as many bits as bytes for needles longer than two |
| BitErrors.CorrectWindow | AOSP/core/bootstat/bootstat.cpp:660-667 | correcting an untouched window adds exactly its errors to the distance |

## Left out

- UDP device: the device half of the protocol is not in the repository; `UdpSystem` assumes it processes the expected number once, repeats its saved reply for the one before, and ignores the rest.
- Overflow of the host's `int` sequence counter after two billion packets, error texts, response timeouts and the TCP version handshake (AOSP/core/fastboot/tcp.cpp:94-126).
- Single-buffer TCP send (AOSP/core/fastboot/socket.cpp:188-200): it shortens the length without moving the data pointer, so only the multi-buffer form preserves bytes.
- BootImage.Make: for page sizes that are not a power of two, or smaller than the header, it only promises not to end the program; the source neither checks nor supports them.
- BootImage.MakeBootImage: the inputs together are below 2^62 bytes, so that no 64-bit size wraps; the command-line field (AOSP/core/fastboot/bootimg_utils.cpp:37-48) is part of the source header.
- Reading and writing image files, and the content of the footer beyond its magic (AOSP/core/fastboot/vendor_boot_img_utils.cpp:164-194).
- FlashPlan.Plan: starts from the parsed task list; parsing the lines of `fastboot-info.txt` and running the plan are not modelled.
- SparseStream.Driver.Download: the size check, the download command and the response are not modelled; libsparse is any sequence of pieces.
- The layout builder, metadata reading, libavb, device-mapper, vdc and property services are outcomes of the environment.
- MountAll.MountAllEntries: the conditions for passing over an entry, fatal failures and encryption decisions are answers of the environment; the returned status apart from the error count and errno reporting are not modelled.
- FileWait.BlockedIffMissed: whether a change is one that the watch covers is the environment's choice; an unknown mask is not modelled.
- OneShotInotify.Waiter.PollForFile: covers both polling loops through the condition; the 50 ms sleep is a turn of the script.
- BitErrors.NumError: an empty needle is excluded, because the source then reads before the text.
- The second pass of `correctForBitErrorOrUnderline`, boot-reason tables and aliases, and `fs_mgr_parse_proc_bootconfig`.
- Dsu.TransformFstabForDsu: entry fields it neither reads nor writes are one opaque value; the partition names of libgsi are constants.
- OrderedSet.Set.Run: set operators that Python derives from these methods, hashing and reprs are not modelled.
- USB transports, file system tools, debuggerd, the GStreamer examples and the remaining scripts: system calls and glue without deep properties.
