# LiveKit SIP: verified model

A Dafny model of the protocol and data-plane parts of the LiveKit SIP bridge, with proofs over
whole runs. Each module follows one component:

- `H264Depacketizer`, `H264Recovery`, `PaddedRecovery`, `Reordering`, `Capture`, `CaptureRoundTrip`,
  `Recorder`, `EndToEnd`: the test tools that capture RTP video into pcap files and rebuild the H.264 stream
  from them, with a packetizer as the specification (sections 5.6, 5.7.1 and 5.8 of RFC 6184).
- `AnnexBStream`, `PcapFormat`: the two file formats, stated on their own, that these tools read and write.
- `MediaTimeout`: the media-inactivity watchdog, a timed concurrent protocol.
- `InboundDialog`, `OutboundDialog`: the two SIP INVITE dialog state machines.
- `VideoSdp`, `VideoAnswer`, `SdpReading`, `Text`: H.264 negotiation in SDP, parser and printer, and what
  the lines of a session mean to them.
- `SilenceFiller`, `RtpWriter`, `Keyframe`: RTP timelines and the Annex-B keyframe scan.
- `OpusEncoder`, `SignalLogger`: audio re-chunking and voice detection.
- `GridLayout`: the compositor's tile geometry.
- `Transfers`: the shared worker of repeated call-transfer requests.
- `Arithmetic`, `Bytes`: facts about quotients, and octet fields.

Code that updates state is modelled by classes and methods with loops; each is proved equal to a
function of the old state, and the theorems are about that function and its runs. Concurrency is
modelled as interleaved steps, a method that holds its lock being one step. The other side of a
call, the network, sinks, codecs and clocks are parameters: every statement holds for all their behaviours.
`dafny verify dfyconfig.toml` checks everything.

## What the proofs found

- A sequence gap above 0x8000 makes the recorder's unwrapped numbers wrong, but not the recorded
  stream: the depacketizer only compares neighbours (`Reordering.RecordingExact`).
- `Accept` returns on a failed repetition of its 200 with the transaction still held, so a later
  close can reject an INVITE that was already accepted (`InboundDialog.InterruptedThenRejected`).
  The comment beside the retry limit says about 750 ms; without ACK the three copies are followed
  by waits of 250, 500 and 1000 ms (`InboundDialog.UnacknowledgedWaits`).
- The recorder does not strip RTP padding, which ends up inside the recorded NAL units
  (`PaddedRecovery.PaddingExact`).
- Dropping an outbound dialog resets its counter to 0, not 1, so an INVITE sent after a drop carries
  CSeq 0 (`OutboundDialog.NumberingRestarts`); the CANCEL branch of `Close` cannot be reached
  (`OutboundDialog.InviteFieldsAgree`). A BYE sent during shutdown leaves the dialog as it is, so a
  call closed again sends another (`OutboundDialog.OneByeExactly`, `OutboundDialog.ShutdownRepeatsBye`).
- With a frame rate above the clock rate the RTP timestamp stands still, and a unit that failed
  part-way is glued to the next (`RtpWriter.ReceiverExact`, `RtpWriter.ZeroFrameDurationGlues`).
- The keyframe scan needs no assumption about units that end in zero. A unit of a type other than
  6, 7 and 8 before the IDR slice, such as an access unit delimiter, hides the keyframe
  (`Keyframe.KeyframeExact`).
- Of several requests waiting for one transfer only one learns that it failed; the others read the
  zero value of a closed channel and report success (`Transfers.ToldExactly`).

## Model

| member | source | states |
|---|---|---|
| H264Depacketizer.Depacketize | sip_video_testing/tools/extract_received_video.py:120-183 | The reassembly loop returns exactly the output of folding the packet step over its input, for any packets at all: single NAL units, STAP-A, FU-A, empty, truncated and unknown bodies, with any sequence numbers. |
| H264Depacketizer.UnpackStap | sip_video_testing/tools/extract_received_video.py:151-159 | The inner aggregation loop emits each complete length-prefixed unit and stops at a zero size or a size beyond the body. |
| H264Recovery.StapRoundTrip | sip_video_testing/tools/extract_received_video.py:151-159 | Any list of units of 1 to 65535 bytes packed as a STAP-A body unpacks to their Annex-B form, whatever precedes the body. |
| H264Recovery.FuaUnit | sip_video_testing/tools/extract_received_video.py:160-177 | A FU-A of one or more fragments contributes its NAL unit, header byte rebuilt, exactly when none of its packets was lost, and nothing otherwise. |
| H264Recovery.UnitRecovered | sip_video_testing/tools/extract_received_video.py:134-177 | One packetized unit of any kind adds exactly the NAL units whose packets all survived, starting from any state a preceding loss may leave behind, and leaves such a state again. |
| H264Recovery.LossyRecovery | sip_video_testing/tools/extract_received_video.py:120-183 | For every list of units in any mix of single NAL, STAP-A and FU-A, numbered consecutively, and every set of lost packets: the output is the Annex-B form, in order, of exactly the NAL units all of whose packets survived. A reader that cuts the output at its start codes gets exactly these NAL units back if and only if none of them contains a start code or ends in zero. |
| H264Recovery.LosslessRoundTrip | sip_video_testing/tools/extract_received_video.py:120-183 | Without loss, depacketizing inverts every packetization. |
| H264Recovery.AliensPassedOver | sip_video_testing/tools/extract_received_video.py:145-182 | Packets that carry nothing the tool knows (empty, of a type other than 1 to 24 and 28, or a FU-A without a fragment header) change nothing in the output, wherever they stand between the packets of the stream. |
| AnnexBStream.CutExact | sip_video_testing/tools/extract_received_video.py:23-150 | Cutting the octet stream 0, 0, 0, 1, unit, 0, 0, 0, 1, unit, … at its start codes gives the units back if and only if each is free of start codes and does not end in zero (Annex B of H.264). |
| Reordering.UnwrapSequence | sip_video_testing/tools/extract_received_video.py:288-300 | The unwrapping loop numbers the packets as the recursive definition does, adding forward distances up to 0x8000 and following no larger one. |
| Reordering.RecordStream | sip_video_testing/tools/extract_received_video.py:244-302 | Sorting by offset from the first captured packet, unwrapping and depacketizing, composed. |
| Reordering.OrderRestored | sip_video_testing/tools/extract_received_video.py:244-247 | For packets numbered within one 16-bit window, captured in any order: sorting by offset gives the sending order if and only if the first packet captured is the first one sent. |
| Reordering.UnwrapExact | sip_video_testing/tools/extract_received_video.py:283-300 | For packets in sending order, with gaps of any size and any total span: unwrapped numbers equal true number minus base for every packet if and only if no gap exceeds 0x8000. |
| Reordering.OnlyNeighboursMatter | sip_video_testing/tools/extract_received_video.py:134-144 | The depacketizer uses sequence numbers only to tell immediate neighbours from gaps. |
| Reordering.RecordingExact | sip_video_testing/tools/extract_received_video.py:244-302 | Hence, even with gaps above 0x8000, a stream within one window is recorded as if its true numbers were known, whatever order the packets after the first arrive in. |
| Capture.SumWords | sip_video_testing/tools/udp_to_pcap.py:22-24 | The checksum loop sums the big-endian 16-bit words of an even-length header. |
| Capture.Ipv4Checksum | sip_video_testing/tools/udp_to_pcap.py:19-27 | Padding, summing, two folds and complement. |
| Capture.BuildFrame | sip_video_testing/tools/udp_to_pcap.py:30-46 | A frame is built exactly for payloads of at most 65507 bytes; the length fields of a longer one do not fit and raise an error. |
| Capture.WriteCapture | sip_video_testing/tools/udp_to_pcap.py:71-87 | The capture loop writes the global header followed by every record in order, or fails with the first datagram that does not fit. |
| Capture.ReadPcap | sip_video_testing/tools/extract_received_video.py:27-43 | The reader rejects short files, pcapng and unknown magic numbers, and recognises both byte orders. |
| Capture.ReadRecords | sip_video_testing/tools/extract_received_video.py:44-52 | The record loop yields every complete record and drops a truncated tail. |
| PcapFormat.FileReadsBack | sip_video_testing/tools/extract_received_video.py:27-52 | A pcap file of either byte order and time resolution, even cut off inside its last record, is read as exactly the frames of its complete records with its link type. |
| PcapFormat.RefusedExactly | sip_video_testing/tools/extract_received_video.py:27-43 | Exactly the files of fewer than 24 octets are refused as too short, those of the pcapng magic as pcapng, and those of any magic but the four classic ones as unknown. |
| PcapFormat.LinkExact | sip_video_testing/tools/extract_received_video.py:55-76 | The reader finds an IPv4 packet in a frame if and only if the frame is that packet in Ethernet, in Ethernet with one VLAN tag, behind a loopback family 2, raw under link types 12, 14 and 101, or behind a 16-octet cooked header. |
| PcapFormat.UdpReads | sip_video_testing/tools/extract_received_video.py:79-93 | A UDP datagram behind an IPv4 header with any options, with any octets of the frame behind it, is read to its ports and exactly its payload. |
| PcapFormat.UdpExact | sip_video_testing/tools/extract_received_video.py:79-93 | A packet is taken for UDP if and only if it is at least as long as the headers it announces, of version 4 and protocol 17; when its UDP length does not fit, all that follows the header is payload. |
| CaptureRoundTrip.TwoFoldsSuffice | sip_video_testing/tools/udp_to_pcap.py:19-27 | For every input of up to 131072 bytes, odd lengths included, two folds are as good as folding to the end (section 3.1 of RFC 791). |
| CaptureRoundTrip.HeaderVerifies | sip_video_testing/tools/udp_to_pcap.py:37-45 | With the inserted checksum the one's-complement sum of every written IPv4 header is 0xFFFF. |
| CaptureRoundTrip.FrameParses | sip_video_testing/tools/extract_received_video.py:55-93 | A written frame parses back, through link layer, IPv4 and UDP, to the ports and payload it was built from. |
| CaptureRoundTrip.CaptureReadsBack | sip_video_testing/tools/extract_received_video.py:27-93 | A capture is written if and only if every datagram has at most 65507 bytes; reading it back returns all ports and payloads in order, with either host byte order. |
| CaptureRoundTrip.FrameWritten | sip_video_testing/tools/udp_to_pcap.py:30-46 | The frame written for a payload is an Ethernet frame of an IPv4 packet without options of a UDP datagram from the session's source to its destination, octet for octet. |
| CaptureRoundTrip.ToolWritesPcap | sip_video_testing/tools/udp_to_pcap.py:71-87 | What the capture tool writes is a big-endian pcap file of version 2.4 in microseconds with Ethernet frames, as the format defines it: one complete record for each datagram, with its arrival time and frame. |
| Recorder.Collect | sip_video_testing/tools/extract_received_video.py:206-229 | The collecting loop groups the RTP video packets of a capture by source, in capture order, for any frames and any direction. |
| Recorder.Busiest | sip_video_testing/tools/extract_received_video.py:238-240 | The chosen source has at least as many packets as every other one. |
| Recorder.BusiestIsFirst | sip_video_testing/tools/extract_received_video.py:238-240 | Of several sources with the most packets, the one whose first packet came first is chosen. |
| Recorder.Extract | sip_video_testing/tools/extract_received_video.py:206-302 | The whole recorder: bad capture files, captures without video, and the recording of the busiest source. |
| PaddedRecovery.PaddedRecording | sip_video_testing/tools/extract_received_video.py:117-183 | The recorder leaves RTP padding at the end of a payload. Whatever octets stand behind whichever packets: the output is the Annex-B form of the padded units, single NAL units and fragments lengthened, aggregation packets with the units their reader takes padding for. |
| PaddedRecovery.PaddedStap | sip_video_testing/tools/extract_received_video.py:151-159 | Reading an aggregation packet goes on into the padding, from its first octet. |
| PaddedRecovery.PaddingExact | sip_video_testing/tools/extract_received_video.py:117-183 | The output is that of the stream without padding if and only if every unit that survives has none, or, for an aggregation packet, padding that does not begin like a length and that many octets. |
| EndToEnd.RtpExact | sip_video_testing/tools/extract_received_video.py:96-117 | A payload is taken for RTP if and only if it is of version 2, its packet type is none of 72 to 76, and it holds the CSRCs and the extension it announces; then the sequence number, time, payload type and everything behind these are what is read. |
| EndToEnd.EntryExact | sip_video_testing/tools/extract_received_video.py:215-228 | A datagram is taken for video if and only if the port asked for is its destination (in), its source (out), or either of them (both), and its payload is RTP; it counts for the source of octets 8 to 11. |
| EndToEnd.RtpRoundTrip | sip_video_testing/tools/extract_received_video.py:96-117 | Every RTP packet of version 2 that is not RTCP, with or without padding, parses to its sequence number, source and payload followed by its padding, CSRCs and an extension skipped; what is taken for the payload is the payload if and only if there is no padding (section 5.1 of RFC 3550). |
| EndToEnd.TrafficParses | sip_video_testing/tools/extract_received_video.py:206-229 | From a capture of datagrams, RTP packets of one source among anything else, the tool extracts exactly that source's packets in order of arrival, each with its padding, and of any other source as many as there are. |
| EndToEnd.GroupSplits | sip_video_testing/tools/extract_received_video.py:206-229 | Grouping splits the packets of a capture by source without losing or reordering any. |
| EndToEnd.BusiestIs | sip_video_testing/tools/extract_received_video.py:238-240 | A source with strictly more packets than any other is the one recorded. |
| EndToEnd.BusiestExact | sip_video_testing/tools/extract_received_video.py:206-240 | The source recorded is the one with the most packets in the capture and, of several, the one whose first packet came first. |
| EndToEnd.BadCaptures | sip_video_testing/tools/extract_received_video.py:27-42 | The tool refuses exactly the files of fewer than 24 octets, those of the pcapng magic, and those of none of the four classic magics, and tells them apart. |
| EndToEnd.CaptureParses | sip_video_testing/tools/extract_received_video.py:206-229 | From a capture in any link layers, of any frames to and from any ports in any number, the tool extracts for the recorded source exactly its packets addressed as the direction asks, in order of arrival, each with its padding. |
| EndToEnd.RivalsCounted | sip_video_testing/tools/extract_received_video.py:206-229 | And of any other source as many entries as there are RTP packets of it for the port and direction asked for. |
| EndToEnd.NothingRecorded | sip_video_testing/tools/extract_received_video.py:231-236 | The tool reports that it found no video if and only if no frame holds an RTP packet for the port and direction asked for. |
| EndToEnd.RecordingIsFaithful | sip_video_testing/tools/extract_received_video.py:186-307 | From NAL units to recording: packetized any way, any packets lost, the rest sent as RTP with any headers and padding and arriving in any order after the first, captured in a pcap file of any byte order, resolution and link layers, read with any port and direction, among any other frames, to and from any other ports in any number and with any source, as long as no source has as many packets for the port asked for: the recording is the Annex-B form of exactly the NAL units whose packets all survived if and only if none of their padding leaks into it. Cut at its start codes the recording gives the recorded units back if and only if none of them contains a start code or ends in zero. |
| EndToEnd.ToolCaptureIsFaithful | sip_video_testing/tools/extract_received_video.py:186-307 | The same for a capture written by the capture tool of this repository. |
| EndToEnd.UnpaddedIsFaithful | sip_video_testing/tools/extract_received_video.py:186-307 | So without padding the recording is always faithful. |
| MediaTimeout.MediaPort.constructor | pkg/sip/media_port.go:537-544 | A new port is disabled, has seen no packet, and its timer is parked; limits that are not positive are replaced by 30 and 15 seconds. |
| MediaTimeout.MediaPort.KickTimeoutLoop | pkg/sip/media_port.go:490-495 | The kick fills the one-slot channel, or finds it full. |
| MediaTimeout.MediaPort.EnableTimeout | pkg/sip/media_port.go:503-523 | Stores of the limits, 30 and 15 seconds in place of limits that are not positive, then a kick: exactly the run of a setter's single steps. |
| MediaTimeout.MediaPort.DisableTimeout | pkg/sip/media_port.go:497-501 | Clearing the start, then a kick. |
| MediaTimeout.MediaPort.HandlePacket | pkg/sip/media_port.go:1117-1118 | A packet only moves the time of the last packet. |
| MediaTimeout.MediaPort.LoopIteration | pkg/sip/media_port.go:545-635 | One pass of the loop is the step of the transition system, whichever cause woke it. |
| MediaTimeout.RunKeepsInv | pkg/sip/media_port.go:490-635 | Every step of every interleaving, single stores of concurrent setters included, keeps the wake-up invariant. |
| MediaTimeout.FieldsAreTheRun | pkg/sip/media_port.go:497-535 | In every run the last packet time is the clock, moved only by passing time, at the last arrival, or none; the start and both windows are what was stored last. |
| MediaTimeout.DeadlineIsDue | pkg/sip/media_port.go:579-619 | The deadline of the loop is one general window after the last arrival, or one initial window after enabling if nothing ever arrived, whenever and only when the timeout is enabled. |
| MediaTimeout.NoLostWakeup | pkg/sip/media_port.go:559-635 | In every reachable state with the timeout enabled and not fired: the timer wakes the loop by the time silence is due, read off the events of the run, or a kick is pending, or a setter still owes one. |
| MediaTimeout.FiresAtMostOnce | pkg/sip/media_port.go:546-548 | In every run the callback runs at most once, and nothing follows a fired or closed loop. |
| MediaTimeout.FiresOnTime | pkg/sip/media_port.go:620-629 | The callback runs only in a pass that saw the timeout enabled, the port not closed and the time reached at which, by the events of the run, silence is due; exactly then when only the timer can wake the loop. |
| MediaTimeout.NeverFiresNearAPacket | pkg/sip/media_port.go:579-629 | A call in which packets arrive is never reported: in every run the callback runs no sooner than the general window in force after each arrival. |
| MediaTimeout.PassDecides | pkg/sip/media_port.go:559-634 | A pass fires if and only if silence is due by the events of the run; otherwise it sets the timer to an hour while disabled, else to the due time or one general window ahead, whichever is sooner, and changes nothing else but taking the kick that woke it. |
| MediaTimeout.InitialWindowOver | pkg/sip/media_port.go:579-596 | Once a packet was seen, no later event, re-arming included, brings the initial window back. |
| MediaTimeout.SilenceIsReported | pkg/sip/media_port.go:620-634 | From any settled enabled state in which nothing but time and the loop move, the loop is not still running past the deadline, even when the initial window is longer than the general one. |
| MediaTimeout.SilenceFires | pkg/sip/media_port.go:620-634 | And waking only by its timer it fires exactly at the deadline. |
| InboundDialog.SipInbound.AcceptLocked | pkg/sip/inbound.go:2039-2105 | Accepting sends the 200s of the retransmission loop and establishes the dialog unless a send failed; a missing ACK is an error only when waiting for it is enabled. |
| InboundDialog.SipInbound.SendOks | pkg/sip/inbound.go:2059-2101 | The retransmission loop makes the copies and waits of its recursive definition for every transport, option, ACK time and send failure. |
| InboundDialog.SipInbound.Close | pkg/sip/inbound.go:2369-2381 | Closing sends a BYE when established, a rejection while the INVITE is open, and nothing otherwise. |
| InboundDialog.SipInbound.TransferCallLocked | pkg/sip/inbound.go:2290-2315 | A REFER is built only for an established call with a From header, with the next sequence number. |
| InboundDialog.SipInbound.RejectAndDrop | pkg/sip/inbound.go:1884-1889 | The response goes out while the INVITE is open; afterwards the dialog is gone. |
| InboundDialog.DialogRun | pkg/sip/inbound.go:1851-2381 | In every interleaving of ringer ticks and methods: the fields encode exactly one of pending, established and gone; in-dialog requests follow a 200 and are numbered contiguously from the INVITE's CSeq plus one (section 12.2.1.1 of RFC 3261); at most one BYE is sent, last of all. |
| InboundDialog.GoneIsSilent | pkg/sip/inbound.go:2111-2116 | After a drop or the remote BYE nothing is sent any more. |
| InboundDialog.RequestsOnlyEstablished | pkg/sip/inbound.go:2238-2258 | Only an established dialog sends requests; closing one sends exactly one BYE with the next number. |
| InboundDialog.ResponseTrace | pkg/sip/inbound.go:1862-2105 | In every run in which no repetition of a 200 fails to go out: provisional responses, then copies of 200 or one other final response; no provisional response follows a final one. |
| InboundDialog.ResponseTraceExact | pkg/sip/inbound.go:1862-2105 | In any run, the responses are of that form if and only if, from an accept whose repetition failed until its transaction is released, the dialog is not asked for any response but 200. |
| InboundDialog.InterruptedThenRejected | pkg/sip/inbound.go:2074-2076 | The failing case: an accept returns on a failed repetition without recording success, and a later close rejects the INVITE it already accepted. |
| InboundDialog.WireIsReadOff | pkg/sip/inbound.go:1851-2381 | Everything a run puts on the wire is read off its events: while the INVITE is open 100, 180 for ringing and each tick, the status or code of a rejection and the copies of 200; once established INFO, REFER with a From header and BYE with consecutive numbers; nothing once gone. The phase and whether the ringer is on are read off as well. |
| InboundDialog.ReferRemembered | pkg/sip/inbound.go:2290-2315 | A transfer of an established call with a From header sends a REFER with the number that NOTIFY is matched against and leaves the call established; any other changes nothing. |
| InboundDialog.WaitsBackOff | pkg/sip/inbound.go:2060-2100 | From any try on, the k-th wait of the retransmission loop is the first wait doubled once per earlier try, capped at 3 seconds. |
| InboundDialog.RetransmissionExact | pkg/sip/inbound.go:2060-2104 | Exactly how often a 200 is sent and the waits after each, for every transport, option, ACK time and failing send: up to the failing send, else up to the one whose wait the ACK ends, else 6 times over UDP, 3 without insisting on the ACK, 2 times and once over a reliable transport, when alone the ACK counts as missing and only if it is waited for. Waits over UDP are 250 ms doubled up to 3 seconds, else 3 seconds. |
| InboundDialog.RetransmissionBound | pkg/sip/inbound.go:2060-2104 | So a 200 is sent at most six times, exactly as often as the transport and option say over UDP when no ACK comes and no send fails; no wait is outside 250 ms to 3 seconds. |
| InboundDialog.UnacknowledgedWaits | pkg/sip/inbound.go:2060-2101 | Over UDP without ACK and without the option to wait for it: three copies, with waits of 250, 500 and 1000 milliseconds. |
| OutboundDialog.SipOutbound.SendInviteLocked | pkg/sip/outbound.go:996-1077 | The authentication loop and the recording of the accepted INVITE, for every sequence of replies. |
| OutboundDialog.SipOutbound.TransferCallLocked | pkg/sip/outbound.go:1241-1267 | A REFER with the next number, only for an established call while the client is not closing. |
| OutboundDialog.SipOutbound.CloseLocked | pkg/sip/outbound.go:1311-1322 | BYE, CANCEL or nothing, with the shutdown variant of the BYE. |
| OutboundDialog.SipOutbound.AckInviteOKLocked | pkg/sip/outbound.go:1104-1113 | An ACK is written only for an established call. |
| OutboundDialog.AuthLoop | pkg/sip/outbound.go:996-1066 | Every call of Invite sends one to five INVITEs with consecutive numbers, the first without credentials. With credentials each of the first four that is answered by a usable challenge, in WWW-Authenticate for 401 and Proxy-Authenticate for 407, is followed by one that answers exactly it, in Authorization or Proxy-Authorization; nothing is sent after any other reply. The dialog is established if and only if the last reply is a 200, and Invite succeeds if and only if this 200 has a tagged To. |
| OutboundDialog.WireIsReadOff | pkg/sip/outbound.go:996-1322 | Everything a run puts on the wire is read off its events: the INVITEs of each call, and while the call is up ACKs, REFERs and BYEs with their numbers, also after drops and during shutdown. Whether the call is up, the next number and the closing flag are read off as well. |
| OutboundDialog.InviteFieldsAgree | pkg/sip/outbound.go:1229-1233 | In every run the stored INVITE and its 200 are both set or both nil, so Close never sends a CANCEL. |
| OutboundDialog.CallRun | pkg/sip/outbound.go:996-1322 | In every run that sends no INVITE after a drop: INVITE attempts, REFERs and the BYE are numbered 1, 2, 3, … in sending order, and outside shutdown at most one BYE is sent, last. |
| OutboundDialog.NumberedExactly | pkg/sip/outbound.go:1181-1233 | Those are exactly the runs so numbered: the numbers are 1, 2, 3, … if and only if no INVITE follows a drop. |
| OutboundDialog.NumberingRestarts | pkg/sip/outbound.go:1229-1233 | The failing case: a drop resets the counter to 0, so an INVITE after it breaks the numbering for good. |
| OutboundDialog.OneByeExactly | pkg/sip/outbound.go:1187-1233 | For every run, shutting down or not, INVITEs after a drop or not: at most one BYE is sent if and only if at most one Close finds the dialog established. |
| OutboundDialog.SecondClose | pkg/sip/outbound.go:1187-1209 | Closing an established dialog twice sends two BYEs if and only if the client was shutting down, as that branch does not drop the dialog. |
| OutboundDialog.ShutdownRepeatsBye | pkg/sip/outbound.go:1068-1077 | The failing case, from the start: a 200 without a To tag is recorded although Invite reports an error, the client shuts down, and the call is closed twice. |
| VideoSdp.CollectCandidates | pkg/sip/video_sdp.go:233-260 | The first pass collects the H.264 payload types in offer order and the last index of each. |
| VideoSdp.ParseParameters | pkg/sip/video_sdp.go:278-301 | The parameter loop of one fmtp line computes what the line declares. |
| VideoSdp.ApplyFmtpLines | pkg/sip/video_sdp.go:265-302 | The second pass gives each payload type exactly its own fmtp parameters; of a payload type mapped twice, only the last mapping gets any. |
| VideoSdp.Prefer | pkg/sip/video_sdp.go:308-315 | The selection loop finds the declared choice. |
| VideoSdp.ChoiceExact | pkg/sip/video_sdp.go:304-315 | The choice is the first candidate with explicit packetization-mode=1 if there is one, else the first candidate: an index has that property if and only if it is the one chosen. |
| SdpReading.RtpmapExact | pkg/sip/video_sdp.go:238-255 | A line maps a payload type to H.264 if and only if it is an rtpmap line whose part before the first blank, trimmed, is that integer and whose part behind it begins with H264 in either case, alone or before a slash. |
| SdpReading.FmtpExact | pkg/sip/video_sdp.go:278-301 | One fmtp line declares the value of its last profile-level-id, its last packetization-mode that is an integer, and the seven capacity parameters in order, in lower case, joined by semicolons; keys and values are read without the white space around them. |
| SdpReading.KeyValueExact | pkg/sip/video_sdp.go:280-286 | Key and value of a parameter stand around its first equals sign, the key in lower case, both without the white space around them. |
| SdpReading.DeclaredExact | pkg/sip/video_sdp.go:265-302 | What is declared for a payload type is read from exactly the fmtp lines that name it, later ones overriding; without any the mode is an undeclared 1, and only the last line has its capacity parameters echoed. |
| SdpReading.SelectionExact | pkg/sip/video_sdp.go:224-318 | A selection is made if and only if some line maps a payload type to H.264; it is the declared choice among the mappings, its payload type cut to an octet. |
| VideoSdp.SelectH264 | pkg/sip/video_sdp.go:224-318 | The two passes and the loop together, for every list of attributes. |
| Text.ItoaRoundTrip | pkg/sip/video_sdp.go:251-255 | Every 64-bit integer printed in decimal is read back, so the payload type text is a faithful key. |
| Text.AtoiExact | pkg/sip/video_sdp.go:251-295 | An integer is read if and only if the text is an optional sign, any zeros and its decimal digits, and it fits in 64 bits. |
| Text.TrimmedOff | pkg/sip/video_sdp.go:279-286 | Trimming takes white space off both ends until there is none. |
| Text.SplitJoined | pkg/sip/video_sdp.go:279-301 | Splitting at semicolons undoes joining. |
| VideoAnswer.RemoveVideo | pkg/sip/video_sdp.go:137-144 | The in-place filter keeps exactly the other sections, in order, at the front of the same array. |
| VideoAnswer.SetVideoAnswerOnLocalSdp | pkg/sip/video_sdp.go:132-147 | The session afterwards is the other sections followed by the printed answer. |
| SdpReading.SectionKept | pkg/sip/video_sdp.go:137-143 | The sections kept are exactly those not called video in any case, in order. |
| SdpReading.AnswerSection | pkg/sip/video_sdp.go:91-147 | The session afterwards ends in its one video section, on the given port over RTP/AVP, its only format the payload type that its own rtpmap line maps to H.264; a peer finds usable video in it if and only if the port is not 0. |
| SdpReading.AnswerText | pkg/sip/video_sdp.go:91-128 | The text of the answer's four attributes, with our profile or else the offered or 42e01f, and mode 1 in place of 0. |
| VideoAnswer.ReplaceTwice | pkg/sip/video_sdp.go:130-147 | Replacing keeps the other sections; replacing twice is replacing with the last answer. |
| VideoAnswer.SelectionPrintable | pkg/sip/video_sdp.go:224-318 | Whatever an offer leads to can be printed: trimmed, lower-cased keys and values without separators. |
| VideoAnswer.AnswerReadsBack | pkg/sip/video_sdp.go:91-128 | Parsing a session with a printed answer returns its payload type, resolved profile and mode, and a byte-identical capacity string. |
| VideoAnswer.SdpRoundTrip | pkg/sip/video_sdp.go:91-318 | For every offer with usable H.264: answering and reading the answer gives the offered payload type, our profile if known or else the offered or default one, the offered mode with 0 becoming 1, and the same capacity string. |
| VideoAnswer.ProfileExact | pkg/sip/video_sdp.go:51-64 | The level of a profile is decided by the number of 16 by 16 blocks that the frame touches: 3.1 up to 3600, 4.0 up to 8192, else 5.0. |
| SilenceFiller.Filler.IsSilenceSuppression | pkg/sip/silence_filler.go:86-119 | Wrapping sequence and timestamp arithmetic finds the missing whole frames of an in-sequence packet and none otherwise. |
| SilenceFiller.Filler.constructor | pkg/sip/silence_filler.go:46-74 | A frame is a fiftieth of a second at either rate; the limit is the last positive one given, or 25 frames. |
| SilenceFiller.Filler.FillWithSilence | pkg/sip/silence_filler.go:121-129 | The countdown loop writes that many silence frames or stops at the sink's first error. |
| SilenceFiller.Filler.HandleRTP | pkg/sip/silence_filler.go:131-158 | One packet: statistics, filling within the limit, the early return on a PCM error, and forwarding. |
| SilenceFiller.PacketHandled | pkg/sip/silence_filler.go:86-158 | What one more packet adds to any run: silence for the whole frames it skips if it follows its predecessor in sequence and they do not exceed the limit, until the PCM sink refuses, and then the packet unless refused. The first packet and one out of sequence get none; gaps of up to a hundred times the limit are counted. |
| SilenceFiller.TimelineExact | pkg/sip/silence_filler.go:86-158 | For in-order streams of any length, over any number of 16-bit and 32-bit wraps, whose timestamps advance by whole frames: every packet stands in the output at its true distance in frames with only silence between, if and only if no gap exceeds the limit. |
| SilenceFiller.GapDetected | pkg/sip/silence_filler.go:95-118 | In such a stream the gap found before a packet is exactly the number of missing frames. |
| SilenceFiller.ShiftInvariant | pkg/sip/silence_filler.go:86-158 | For any arrivals, adding constants to all sequence numbers and timestamps, with wrap-around, changes only those fields of what is forwarded. |
| SilenceFiller.ForwardedInOrder | pkg/sip/silence_filler.go:131-158 | For any arrivals, every packet is forwarded once and in order, except exactly those whose silence the PCM sink refused. |
| RtpWriter.H264RTPWriter.constructor | pkg/sip/video.go:183-201 | The fallback increment is the clock rate over the frame rate, rounded down, rates that are not positive replaced by 90000 and 30; it is 0 when the frame rate exceeds the clock rate. |
| RtpWriter.H264RTPWriter.WriteVideoSample | pkg/sip/video.go:203-248 | One access unit: the timestamp step, packets until the first failed write, and the sequence number counting only packets written. |
| RtpWriter.UnitWritten | pkg/sip/video.go:203-248 | What one more access unit of any run puts on the network: its payloads up to the first failing write, numbered on from all packets before, at the time of the ticks elapsed since the run began, each unit but the first advancing it by its own duration or, if that is unknown, the fallback; the marker on the last payload alone. |
| RtpWriter.SequenceExact | pkg/sip/video.go:221-238 | The k-th packet on the network has sequence number seq0 + k modulo 2^16, whatever writes failed. |
| RtpWriter.ReceiverExact | pkg/sip/video.go:203-248 | Over every run from any state, failures part-way included: a receiver cutting the packets at markers and timestamp changes gets exactly the access units written in full, in order, if and only if no complete unit carries the timestamp of a broken one right before it on the network, that is, the increments in between do not add up to a multiple of 2^32. So packets of a unit share a timestamp and the marker is on exactly the last packet of each fully written unit (section 5.1 of RFC 6184). |
| RtpWriter.ReceiverSeesWritten | pkg/sip/video.go:203-248 | In particular it gets them whenever the fallback increment is positive and units that reach the network are less than 2^32 ticks apart. |
| RtpWriter.AdvancesExactly | pkg/sip/video.go:210-219 | The timestamp moves between any two access units if and only if the fallback increment is positive. |
| RtpWriter.ZeroFrameDurationGlues | pkg/sip/video.go:183-194 | The failing case: with a zero increment a broken unit and the next one carry one timestamp and are glued together. |
| Keyframe.IsH264Keyframe | pkg/sip/video.go:280-315 | Both loops, with termination, against the recursive scan. |
| Keyframe.ScanPrinted | pkg/sip/video.go:276-315 | For every list of units printed with any mix of 3-byte and 4-byte start codes, skipped units containing none: keyframe if and only if the first unit not of type 6, 7 or 8 exists and has type 5. Units may end in zero. |
| Keyframe.KeyframeExact | pkg/sip/video.go:276-315 | For every byte string: keyframe if and only if it is the printed form of some such list. |
| OpusEncoder.Encoder.Append | pkg/media/opus/opus.go:164 | Appending in place or into a larger buffer keeps the samples in order. |
| OpusEncoder.Encoder.ShiftFrame | pkg/media/opus/opus.go:170-171 | The overlapping copy in the same buffer removes exactly the first frame. |
| OpusEncoder.Encoder.WriteSample | pkg/media/opus/opus.go:161-185 | The encoding loop with codec and writer errors at any frame, the error count included. |
| OpusEncoder.Encoder.Close | pkg/media/opus/opus.go:187-207 | Closing hands over what is left, and reports the first error. |
| OpusEncoder.CallExact | pkg/media/opus/opus.go:161-185 | What one call does from any state: of the frames that kept and new samples make up, all are handed over and written up to the first that the codec or the writer refuses, which is handed over and lost; the call fails with the error of whoever refused it; the count of successive codec errors stops at five and restarts after an encoded frame. |
| OpusEncoder.ChunksExact | pkg/media/opus/opus.go:164-171 | Those frames are the only way to cut the samples into frames of the codec's length and a shorter rest. |
| OpusEncoder.NothingLost | pkg/media/opus/opus.go:161-185 | Over any run, whatever failed: frames handed to the codec followed by the residual are all the input, and every frame has exactly the codec's length. |
| OpusEncoder.ResidualShort | pkg/media/opus/opus.go:165-184 | After a call that succeeded the residual is shorter than a frame. |
| OpusEncoder.SplitDoesNotMatter | pkg/media/opus/opus.go:161-185 | After a run whose last call succeeded, the frames handed over depend only on the concatenated input, not on how it was split into calls or which earlier calls failed. |
| OpusEncoder.OneFramePerFailure | pkg/media/opus/opus.go:168-182 | Each failed call costs exactly one frame of audio. |
| OpusEncoder.CloseHandsOverAll | pkg/media/opus/opus.go:187-207 | With the flush on closing the codec has been given all the input. |
| SignalLogger.SignalLogger.WriteSample | pkg/sip/signal_logger.go:162-195 | One frame: hysteresis, hangover, warm-up and the count; every frame is passed on. |
| SignalLogger.SignalExact | pkg/sip/signal_logger.go:162-195 | For any thresholds: from the tenth frame on, voice is reported if and only if some frame from the tenth on was louder than noise floor plus the upper offset, none was since, and no later frame was below noise floor plus the lower offset once the hangover had run out; up to the tenth, if and only if the last frame is that loud. |
| SignalLogger.ChangesAreFlips | pkg/sip/signal_logger.go:182-192 | The count is exactly the number of frames after the tenth at which the reported state differs from the one before, so changes alternate. |
| SignalLogger.ChangesBounded | pkg/sip/signal_logger.go:182-192 | However the level moves, the count is at most 2·⌊elapsed/hangover⌋ + 1. |
| GridLayout.NearlySquare | pkg/sip/video.go:361-368 | Columns are the least integer whose square holds n tiles, no row is empty and none is missing, and rows are one fewer than columns exactly when that suffices. |
| GridLayout.TilesApart | pkg/media/video/gst.go:487-491 | No two tiles overlap. |
| GridLayout.TileFits | pkg/media/video/gst.go:475-491 | Every tile lies in the area; fewer than cols pixels per row and rows pixels per column are left over; tiles are not empty when the area has a pixel for each column and row. |
| GridLayout.NoHoles | pkg/media/video/gst.go:487-491 | Every pixel of the grid above the last row lies in a tile. |
| GridLayout.ReadingOrder | pkg/media/video/gst.go:487-491 | Tiles follow each other in reading order: the first in the corner, each next one to the right of its predecessor or at the start of the row below. |
| GridLayout.LayoutGrid | pkg/media/video/gst.go:470-509 | The loop puts every input, as far as it has a pad, cropper and scaler, into its tile. |
| GridLayout.SortById | pkg/media/video/gst.go:434-439 | The inputs in order of their ids. |
| GridLayout.Relayout | pkg/media/video/gst.go:429-464 | Every input is put where its kind and rank by id say, whatever order the inputs were enumerated in. |
| GridLayout.SmallerIdFirst | pkg/media/video/gst.go:434-450 | Of two inputs of one kind the one with the smaller id comes first in reading order. |
| GridLayout.ParkedGrid | pkg/media/video/gst.go:452-463 | Screen shares are placed as if there were no cameras; cameras form the grid they form without screen shares, moved left by exactly the width of the canvas beside one. |
| GridLayout.ShownOrParked | pkg/media/video/gst.go:452-463 | A camera beside a screen share lies wholly at negative x; every other input lies inside the canvas. |
| GridLayout.PlacesApart | pkg/media/video/gst.go:429-464 | No two inputs, of any kinds, are shown over one another. |
| Transfers.TransferService.GetOrCreatePendingTransfer | pkg/sip/service.go:387-404 | A new entry exactly when the call has none. |
| Transfers.TransferService.TransferSIPParticipant | pkg/sip/service.go:344-352 | A request starts, joins or is turned away. |
| Transfers.TransferService.SendResult | pkg/sip/service.go:367-371 | The worker's non-blocking send. |
| Transfers.TransferService.DeleteEntry | pkg/sip/service.go:374-376 | The worker removes the entry of its call. |
| Transfers.TransferService.ReceiveResult | pkg/sip/service.go:380-385 | A waiting request gets the value in the channel, or success from a closed one. |
| Transfers.RunKeepsInv | pkg/sip/service.go:344-404 | Every step of every interleaving of requests, workers and cancellations keeps the invariant of entries, channels and requests. |
| Transfers.SingleFlight | pkg/sip/service.go:344-404 | In every interleaving an entry gets at most one worker, two entries of one call are never both unfinished, no send finds the channel full and no close finds it closed. |
| Transfers.RunIsItsEvents | pkg/sip/service.go:344-404 | In every run each request belongs to an entry of exactly the call and target it asked for, or was rejected over an entry of its call with another target; the result of an entry is what its worker ended with, and there is none before. |
| Transfers.EnterStarts | pkg/sip/service.go:351-404 | A request for a call without a pending transfer makes the only new entry, for its call and target, and starts its worker. |
| Transfers.EnterShares | pkg/sip/service.go:344-350 | While a transfer is pending, a request with another target starts nothing and is turned away; one with the same target waits for it. |
| Transfers.WaitersUnblocked | pkg/sip/service.go:372 | Before the result every waiting request is blocked; after the close every one can go on. |
| Transfers.ValueGoesToOne | pkg/sip/service.go:367-385 | At most one request gets the worker's value, which is the worker's own result. |
| Transfers.ToldExactly | pkg/sip/service.go:366-385 | However many requests share a transfer: all that were answered were told its result if and only if it succeeded or at most one was answered; a sole answer is always the truth. |
| Transfers.SharedReply | pkg/sip/service.go:380-382 | Two requests answered for one transfer are both told its result if and only if it succeeded. |
| Transfers.SecondRequestMisled | pkg/sip/service.go:366-382 | The failing case: a failed transfer is reported to the second request as a success. |

## Left out

- RecordingIsFaithful: does not cover captures whose surviving packets span more than 65536 sequence numbers or repeat one; the tool does not restore those.
- SipInbound: does not model an unlocked `sendInfoPictureFastUpdate`; INFO is one step like the others, because the code reads and counts without the lock and guarantees nothing there. REFER counts as sent when it is numbered, under the lock.
- SipInbound: does not model errors of responses other than the repeated 200, the CANCEL branch of the ringer, `AcceptAsKeepAlive`, NOTIFY, and the cache of rejected INVITEs.
- SipOutbound: does not model digest computation, provisional responses, route and contact rewriting; a challenge is usable or not.
- MediaPort: does not model time passing inside one pass of the loop, or setters overtaken between reading the clock and storing it; hourly statistics logging is left out. Stores of setters are single steps that may interleave.
- HandlePacket: does not model the second reader, of the video stream, separately; its store is the same (pkg/sip/media_port.go:970).
- SelectH264: does not model bytes that are not valid UTF-8, or lower-casing whose result lies outside ASCII; the remote media address of the section is left out.
- SetVideoAnswerOnLocalSdp: does not model SDP marshalling and unmarshalling, which a library does; sessions are lists of media sections.
- WriteVideoSample: does not model the version, payload type and source fields of the header, which are the same in every packet, the payload packetizer, whose output is a parameter, nor the floating-point rounding of a duration to ticks, which is a parameter too; statistics are left out.
- HandleRTP: does not model wrap-around of the 64-bit packet counter, or a frame size of 0, which the code divides by.
- Close: does not model the codec and the writer behind the Opus encoder beyond success and failure of each frame.
- SignalLogger: does not model the conversion of samples to dBFS; a frame is its level, a real number, and its time. The options and their checks are left out; the configuration is a parameter.
- GridDims: does not model floating-point square roots and quotients; they are exact for the tile counts that occur.
- Relayout: does not model ids as text; they are integers in the same order. The library sort is an insertion sort.
- TransferService: does not model what a transfer does, its timeout, or the provider check before it.
- Recorder.Extract: does not model the frame-rate estimate, the count of discarded assemblies it warns about, or muxing by ffmpeg.
- Capture.WriteCapture: does not model the socket and the idle and maximum times that end a capture; the datagrams received are its input.
- The video offer and rejection printers (pkg/sip/video_sdp.go:67-85, 151-161), error-code tables, configuration, LiveKit room handling, mixer, jitter buffer and GStreamer pipelines would add only members settled by reading one body.
