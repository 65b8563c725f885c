# Verified model of the Insteon RF listener mesh

A Dafny model of what happens to an Insteon message between a radio and the
protocol stack: the firmware that drains a small FIFO while a longer capture
arrives, the message format that carries a burst to the host, the packet codec,
soft decoding and repair, the voting of several receivers' copies, the fusion of
sightings into events, the decision whether to inject one, and the counters kept
on the way. `dafny verify dfyconfig.toml` checks all of it.

Code that changes state in place is a class or a method with loops here too, and
is proved equal to a function on values; what the code promises is then proved
about those functions, over every input or every run. Proofs begin by hiding the
definitions they do not need, which keeps each one small.

| part | modules |
|---|---|
| packet codec | `Manchester`, `Packets`, `Framing`, `RoundTrip`, `CrcAlgebra` |
| modem frames | `Plm` |
| decoding one copy | `FlipSearch`, `Recover`, `RecoverProofs`, `Damage`, `Sightings`, `SightingProofs` |
| combining copies | `Combine`, `CombineVote`, `CombineProofs` |
| event fusion | `Fusion` (one call, on values), `FusionService` (the objects), `FusionEvents`, `FusionProofs`, `FusionKeys`, `FusionRuns`, `FusionAdding`, `FusionSettling`, `FusionNumbering`, `FusionPartition`, `FusionInstants`, `FusionOrder`, `FusionCorners` |
| injection | `Inject`, `InjectProofs` |
| the mesh service | `Misses`, `Mesh`, `MeshProofs` |
| command context | `Context` |
| firmware | `Cc1101`, `Cc1101Proofs`, `Cc1101Stamps`, `Gate`, `Base64` |
| transport and streaming | `BitStrings`, `Transport`, `TransportProofs`, `Streaming` |
| helpers | `Common`, `Sorting`, `Sums` |

The main results are `RoundTrip.ParseInvertsEncode`, `RecoverProofs.RepairExact`,
`Damage.OneWrongSymbol`, `Combine.CombineExact`, `FusionRuns.Conservation`,
`FusionPartition.Partition`, `FusionAdding.AddExactly`,
`FusionSettling.SettleExactly`, `FusionKeys.OneThroughoutExactlyWhen`,
`FusionOrder.NumbersOfOneCall`, `InjectProofs.RateLimits`,
`InjectProofs.PublishedFrame`, `MeshProofs.EndToEnd`, `Cc1101Proofs.Reassembly`,
`Cc1101Stamps.StampsExact`, `Gate.PacketsPass`,
`TransportProofs.PacketsSurviveTransport` and `Streaming.PassesPartition`.

How the model reads the code:

- Symbols and bits are booleans; a stream has no other characters, so stripping
  white space and rejecting foreign characters do not arise.
- Times and confidences are reals. The clock, `enabled()` and the health of the
  modem link are parameters of the calls that read them, constant during one
  call. Timestamps are taken as already corrected for skew.
- Exceptions and `None` results are `Result` and `Option` values.
- A dictionary that is iterated (`_open`, an event's receivers) is a sequence in
  insertion order; the others are maps.
- The two flip loops, in `_repair` and in `combine`, are one method,
  `FlipSearch.FindHit`: both toggle, test and toggle back.
- `decode_frames` returns two parallel lists; here they are one list of frames.
- The CC1101 and the I/Q queue are driven by an adversary: any bytes may arrive
  before, between and during reads, and any put may find the queue full.

Where code and comments disagree, or a tempting invariant fails, the code is
what is modelled:

- The comment in `combine` that a hard disagreement is always among the suspects
  does not hold: with confidence in play the list is cut to the twelve least sure
  positions, and a disagreement is tried exactly when it is one of them
  (insteonrf/fusion.py:439-450, `Combine.SoftSuspectsAreLeastSure`). Two captures
  each loudly wrong about one bit show it (`FusionCorners.DisagreementsNotTried`).
- `_Bucket.add` re-keys a bucket while its slot keeps the old key, so "slot key
  equals bucket key" and "one open bucket per message" can fail
  (`FusionCorners.TwoBucketsForOneMessage`). The first holds exactly as long as
  the bucket's latest verified copy is of its opener's message
  (`FusionProofs.SlotKeyExactlyWhen`), the second exactly as long as no copy that
  is verified, or opens a bucket, finds its message under another key's slot
  (`FusionKeys.SplitsExactlyWhen`; for runs `FusionKeys.OneThroughoutExactlyWhen`).
- `combine` takes the first acceptable packet of the voted capture, wherever it is
  in it. A bucket of verified copies whose hop fields are impossible is combined
  too, so its event may be finished as another packet of the same capture
  (`FusionCorners.VerifiedBucketReKeyed`); exactly when it keeps its key is
  `FusionPartition.KeyKeptExactlyWhen`. Two buckets of one message can then meet
  in an instant, as they can when the message has been forgotten; exactly when
  they do is `FusionInstants.StrictExactlyWhen`.
- Buckets without a verified copy are finished before the others, and retransmission
  numbers follow that order, while events are returned by first sighting: one
  pop can return number 1 before number 0 (`FusionCorners.NumbersOutOfOrder`).
  Exactly when the returned numbers ascend is `FusionOrder.NumbersOfOneCall`.
- `_recover_at` fixes the kind before repair, `pkt_crc` reads it again from the
  repaired flags byte, so `_recover_at` can return a packet whose own `crc_ok` does
  not hold (`Damage.RecoveredAsTheWrongKind`). Exactly when it does hold is
  `RecoverProofs.RecoveredVerifiesExactlyWhen`, and what a caller can check
  beforehand `RecoverProofs.KindNotInDoubt`.
- Repair trusts the checks, and the checks stop at the CRC byte: a wrong symbol
  after it goes unnoticed. One that hides the EXT flag of an extended packet loses
  the packet, or leaves thirteen bytes of it that happen to pass as a standard one
  (`Damage.OneWrongSymbol`).
- The refusal "cannot render as a PLM frame" is never reached
  (`InjectProofs.AlwaysRenderable`).
- The modem memory can forget a report that is still within its window of an old
  event; exactly when is `InjectProofs.SuppressionIsExact`.

## Model

| member | source | states |
|---|---|---|
| `Manchester.DecodePairs` | `insteonrf/manchester.py:26-39` | accepts exactly the streams in which every aligned pair differs; what it returns encodes back to the input |
| `Manchester.LegalExactly` | `insteonrf/manchester.py:26-39` | what is accepted is exactly what is the encoding of its decoding, but for an odd symbol at the end |
| `Manchester.DecodeInvertsEncode` | `insteonrf/manchester.py:18-39` | every encoded bit string is legal and decodes to itself |
| `Packets.ComputeCrc` | `insteonrf/packet.py:103-113` | the loop's register after the covered bytes, for packets shorter than their CRC index too |
| `Packets.ExtCrcOkExactly` | `insteonrf/packet.py:534-538` | for an extended packet that reaches byte 22 the flag says exactly whether bytes 7 to 22, added as integers, come to a multiple of 256; for any other there is none |
| `Packets.FlagsLayout` | `insteonrf/packet.py:387-455` | the flags byte as a number: type, EXT flag, hops left and most hops at their places; ack, group broadcast and possible hops in terms of those numbers |
| `CrcAlgebra.TableStepIsNibbleStep` | `insteonrf/packet.py:88-113` | one step with the 16-entry table is the two-nibble formula of the docstring, for all 65536 register and byte pairs |
| `CrcAlgebra.CrcLinear` | `insteonrf/packet.py:103-113` | the CRC of the XOR of two equally long strings is the XOR of their CRCs, from any registers |
| `CrcAlgebra.UndetectedExactlyWhen` | `insteonrf/packet.py:526-531` | a corruption that keeps the EXT flag goes unnoticed exactly when the difference pattern's own CRC equals its CRC byte |
| `CrcAlgebra.SingleByteErrorCaught` | `insteonrf/packet.py:526-531` | every change of one single covered byte, the CRC byte included, that keeps the EXT flag is noticed |
| `CrcAlgebra.StaleHopsCaught` | `insteonrf/packet.py:526-531` | a changed hop count without a new CRC is noticed |
| `CrcAlgebra.SingleDataByteCaught` | `insteonrf/packet.py:116-118` | every change of one single data byte of an extended packet, its checksum byte included, is noticed by `ext_crc_ok` |
| `Packets.ByteRoundTrip` | `insteonrf/packet.py:599-617` | the eight data bits of a frame, least significant first, carry their byte |
| `Packets.IndexRoundTrip` | `insteonrf/packet.py:599-617` | the five counter bits carry their number, and are all ones only for 31 |
| `Packets.FrameOnAir` | `insteonrf/packet.py:599-617` | symbol by symbol: two ones, then the binary digits of counter and byte, least significant first, a 0 as `10` and a 1 as `01` |
| `RoundTrip.CountersCountDown` | `insteonrf/packet.py:704-711` | a full packet's counters are 31, then 11 or 30 down to 0 |
| `RoundTrip.IndexesExactly` | `insteonrf/packet.py:704-719` | counters are accepted exactly when the first is 31, the others count down from 11 or 30 by the flags byte, and there are no more of them than a packet has |
| `RoundTrip.PacketOnAir` | `insteonrf/packet.py:599-618` | ten alternating bits before the frames, forty-eight after and a pad to a whole byte, around one frame per byte |
| `Framing.ToBits` | `insteonrf/packet.py:599-618` | renders exactly the packets whose counter never goes negative, as preamble, frames, trailer and padding to a byte, in the polarity asked for |
| `Framing.DecodeFrames` | `insteonrf/packet.py:661-682` | the frames from a marker on, up to index 0 or the first break, however short the stream |
| `Framing.FindHeaders` | `insteonrf/packet.py:685-701` | the stream in the polarity whose header comes first, and every non-overlapping header in it |
| `Framing.ParseBits` | `insteonrf/packet.py:722-738` | one packet per header that yields enough bytes, in order |
| `RoundTrip.InvHeaderNever` | `insteonrf/packet.py:599-617` | the inverted header occurs nowhere in any concatenation of encoded packets |
| `RoundTrip.HeaderNeedsIndex31` | `insteonrf/packet.py:599-617` | three ones in a row are a frame marker, and only index 31 fits after it |
| `RoundTrip.HeaderOfPacket` | `insteonrf/packet.py:599-617` | every encoded packet has a start header fifteen symbols in, whatever follows it |
| `RoundTrip.HeaderPlace` | `insteonrf/packet.py:599-617` | and a start header in any concatenation of encoded packets is one of those: nowhere else, across packet boundaries too |
| `RoundTrip.ParseInvertsEncode` | `insteonrf/packet.py:599-738` | any list of encodable packets of any bytes, concatenated in either polarity, parses to exactly those packets in order, counters right, `complete` exactly for full-length ones |
| `Plm.ToPlmAccepts` | `insteonrf/plm.py:92-145` | validation lets through exactly the packets with a passing CRC, legal hops and counters not rejected; every frame has its kind's length |
| `Plm.ToPlmRefusal` | `insteonrf/plm.py:92-145` | which complaint a refused packet gets, in order; a missing CRC byte never is one |
| `Plm.FrameLayout` | `insteonrf/plm.py:92-145` | the modem's frame byte by byte: both addresses high byte first, the sender's before the other, whichever slot of the packet they come from |
| `Plm.FromPlmExactly` | `insteonrf/plm.py:151-197` | a raw frame is taken exactly when it is an inbound one of its kind's length or more whose EXT bit agrees with its code, and which complaint the others get |
| `Plm.FromPlmLayout` | `insteonrf/plm.py:151-197` | the packet it becomes, byte by byte, padding included, its CRC computed anew |
| `Plm.FromInvertsTo` | `insteonrf/plm.py:92-197` | a valid packet survives the trip to a modem frame and back byte for byte up to and including its CRC, group-broadcast slot swap and extended data included, with its message key |
| `Plm.ToInvertsFrom` | `insteonrf/plm.py:92-197` | every well-formed inbound frame with legal hops becomes a valid packet that renders back to the same frame |
| `Plm.KeyIdentity` | `insteonrf/plm.py:200-218` | for packets carrying every byte before the CRC, keys are equal exactly when those bytes agree apart from hops-left |
| `FlipSearch.CombinationsExact` | `insteonrf/recover.py:148-172` | the enumeration is exactly the strictly increasing index lists of the given size |
| `FlipSearch.FindHit` | `insteonrf/recover.py:148-172` | toggling in place and toggling back after every combination, finds the first acceptable one in order of size; the working copy always ends as it began |
| `FlipSearch.SearchExact` | `insteonrf/fusion.py:414-466` | the search is sound, complete within the budget and minimal, over sets of suspects |
| `Recover.ReadLogical` | `insteonrf/recover.py:86-109` | pairs decided by their difference, with confidence and the count of illegal ones, stopping at the end of the symbols |
| `Recover.IndexErrors` | `insteonrf/recover.py:124-135` | counts exactly the frames whose counter is not the mandated one |
| `Recover.TryRepair` | `insteonrf/recover.py:148-172` | the bytes and flip count of the first acceptable set of suspect flips |
| `Recover.SuspectsDoubtful` | `insteonrf/recover.py:148-172` | with m the middle of the data bits' confidences, or the mean of the two middle ones, the suspects are distinct data positions no surer than m/2, or than 1/2 if m is zero: the least sure such positions, no more than the candidate limit, a full list whenever one is passed over |
| `Recover.MedianIsMiddle` | `insteonrf/recover.py:156-157` | the median is one of the values, or the mean of two, with at most half of all values below it and at most half above |
| `Recover.RecoverAt` | `insteonrf/recover.py:217-273` | framing, counter check, CRC, repair and hop check, in that order, with the least confidence of all the bits read |
| `RecoverProofs.RepairExact` | `insteonrf/recover.py:148-172` | repair succeeds exactly when some set of at most `max_flips` suspects passes the CRCs with no counter error, and then flips a smallest such set |
| `RecoverProofs.FlipsKeepCounters` | `insteonrf/recover.py:148-172` | flipping data positions changes no frame counter |
| `RecoverProofs.RepairNeedsCleanCounters` | `insteonrf/recover.py:148-172` | so repair can only succeed when the counters were already right |
| `RecoverProofs.RecoverySound` | `insteonrf/recover.py:217-273` | whatever is recovered has legal hops, passing CRCs for the kind read, data bytes that add up to a multiple of 256 if that is extended, at most the allowed counter errors, none if repaired, and within the flip budget; uncorrected, it is what framing read |
| `RecoverProofs.MeasuredExactly` | `insteonrf/recover.py:86-109` | the measures that come with it: how many pairs of the frames read have two symbols of the same sign, and how far apart the symbols of the least sure pair are |
| `RecoverProofs.RecoveredVerifiesExactlyWhen` | `insteonrf/recover.py:217-273` | what `_recover_at` returns is what framing read with a set of suspects flipped, and its own `crc_ok` holds exactly when the EXT flag is not in that set, or the copy was framed as extended and bytes 9 and 23 agree |
| `RecoverProofs.KindNotInDoubt` | `insteonrf/recover.py:148-172` | checkable before the call: with repair off, or the EXT flag not among the suspects, whatever is recovered has its own `crc_ok` |
| `RecoverProofs.KindChangesExactlyWhen` | `insteonrf/recover.py:217-259` | a repair changes the kind exactly when it flips logical bit 9, the EXT flag |
| `Damage.DamagedRecovery` | `insteonrf/recover.py:217-273` | a complete packet of any bytes with one symbol wrong, from hard bits: its bit is read as 0, and 1 is tried when the checks then fail; nothing else ever comes back |
| `Damage.OneWrongSymbol` | `insteonrf/recover.py:148-273` | every complete sound packet with any one data symbol wrong is recovered from hard bits: up to the CRC byte it comes back byte for byte, past it the checks see nothing and the bit reads as 0; when the symbol hides the EXT flag of an extended one, its first thirteen bytes come back uncorrected exactly when twelve wrong counters are allowed and byte 9 is their CRC, and otherwise nothing does |
| `Damage.RecoveredAsTheWrongKind` | `insteonrf/recover.py:226-259` | a capture whose one doubtful bit is the EXT flag, framed as standard, is repaired into bytes that read as extended: `_recover_at` returns it and its own `crc_ok` does not hold |
| `Damage.WrongKindIsHeard` | `insteonrf/recover.py:226-259` | such a capture exists: a header, the symbols of thirteen bytes, one of them wrong |
| `RecoverProofs.SoftRefinesHard` | `insteonrf/recover.py:86-273` | where the hard decoder finds a complete sound packet, soft framing on hard symbols returns the same bytes with nothing corrected |
| `Sightings.SightingsFromCapture` | `insteonrf/fusion.py:177-242` | one sighting per header whose hard or recovered packet is kept, confidence following polarity, bits and confidence from its own header on |
| `Sightings.RecoverPackets` | `insteonrf/recover.py:175-214` | recovery at every header, the correlator's first if the search missed it, confidence negated with the stream |
| `Sightings.RecoveredOnce` | `insteonrf/recover.py:201-214` | no two results carry the same bytes, each comes from one of the places, and every place's packet is among them |
| `Sightings.IntactSighting` | `insteonrf/fusion.py:207-242` | a sound packet anywhere in a stream is its own sighting: nothing is recovered, and its bits run from its header to the end |
| `Sightings.CaptureGivesPackets` | `insteonrf/fusion.py:177-242` | a capture of any sound packets in either polarity gives exactly one sighting per packet, in order, stamped with its own on-air time |
| `Sightings.PolarityBlind` | `insteonrf/fusion.py:199-205` | an inverted capture with its confidence negated gives the same sightings |
| `SightingProofs.ConfidenceFollows` | `insteonrf/fusion.py:199-205` | confidence is used when there is one for every symbol, and changes sign exactly where the stream was inverted |
| `SightingProofs.SightingDecides` | `insteonrf/fusion.py:207-242` | a sighting's packet is the hard decode when that is long enough with every counter and its CRC byte right, else the recovered packet, one bit corrected at most or one counter wrong at most, else the hard decode as it is; it is stamped with the capture's time plus a 9124th of a second for every symbol before its header |
| `SightingProofs.DamagedSighting` | `insteonrf/fusion.py:207-242` | a sound packet with any one wrong symbol up to its CRC byte is sighted as the packet that was sent, where the hard decoder stops at the wrong frame |
| `SightingProofs.CorrelatorFirst` | `insteonrf/recover.py:201-214` | a correlator's header the search missed is tried before the others, and one it found is not tried twice |
| `Combine.Hamming` | `insteonrf/fusion.py:322-337` | the distance over the common prefix, cut off once past the limit, none for too short a prefix |
| `CombineVote.DistanceExactly` | `insteonrf/fusion.py:322-337` | compared at all when 200 bits overlap, and then by the number of places that differ, or one past the limit if they are more |
| `CombineVote.CopyMade` | `insteonrf/fusion.py:155-159` | a copy without bits of its own has its packet's, and one whose confidence falls short of its bits has none |
| `Combine.CastVotes` | `insteonrf/fusion.py:352-389` | per position the summed votes of the copies that reach it, ties to the first, `disagree` and the margins, accumulated in arrays |
| `CombineVote.VoteExactly` | `insteonrf/fusion.py:352-389` | there is a vote exactly when two copies have bits or the only one came with confidence; it covers what some copy reaches; each position goes by the sign of all that is said of it added up, the first copy to reach it breaking a tie, with the mean as its margin, and is a disagreement exactly when some say 1 and some do not |
| `Combine.MajorityOfHardCopies` | `insteonrf/fusion.py:352-389` | for hard copies each bit is the majority of the copies reaching it, and on a tie the first one's |
| `Combine.DisagreeExact` | `insteonrf/fusion.py:352-389` | `disagree` is exactly the positions where the copies that reach them differ, in order |
| `Combine.AcceptCandidate` | `insteonrf/fusion.py:404-411` | the first parsed packet that passes CRC, counters, hops and extended checksum |
| `Combine.UnambiguousExactly` | `insteonrf/fusion.py:404-411` | a packet is taken exactly when its CRC byte is there and right, its counters were not rejected, it has no more hops left than it may have, and its data bytes add up if it is extended |
| `Combine.CombineCopies` | `insteonrf/fusion.py:414-466` | the vote itself, else the fewest suspect flips that make it acceptable |
| `Combine.CombineExact` | `insteonrf/fusion.py:414-466` | only packets that pass all of that come out; past the plain vote with at most twelve disagreements one comes out exactly when at most two suspect flips make one, using the fewest |
| `Combine.SoftSuspectsAreLeastSure` | `insteonrf/fusion.py:414-450` | with confidence, the suspects of a packet of twelve symbols or more are the twelve least sure positions and nothing else: a disagreement is tried exactly when it is among them |
| `CombineVote.SuspectsExactly` | `insteonrf/fusion.py:436-454` | without confidence the suspects are the disagreements; as soon as one copy has some, they are the twelve positions of the packet with the smallest margins, or all there are |
| `CombineVote.ExtentOfPacket` | `insteonrf/fusion.py:392-401` | bits that begin with a packet's header and first frame extend to exactly its full length, by its kind |
| `CombineVote.ExtentUnread` | `insteonrf/fusion.py:392-401` | when their first frame is broken they are taken for a standard packet |
| `CombineProofs.AcceptIsFirst` | `insteonrf/fusion.py:404-411` | a candidate is accepted for the packet at its first header that has four bytes and passes everything, none before it does, in the polarity of its first header of all |
| `CombineProofs.AcceptAtOwnHeader` | `insteonrf/fusion.py:404-411` | of bits that begin with a header, the packet accepted is the one at that header exactly when it is acceptable, else one at a later header |
| `CombineProofs.CombinedAtOwnHeader` | `insteonrf/fusion.py:414-466` | what is combined comes from the vote with at most two suspects flipped: if that begins with a header, from that header exactly when its packet is acceptable and otherwise from a later one, and else from some header of what it normalises to; copies that vote for the header in front of them keep it exactly when no flip is inside it, hard ones always |
| `FusionCorners.DisagreementsNotTried` | `insteonrf/fusion.py:439-450` | for every complete sound packet, two captures with a different bit loudly wrong: neither verifies, flipping the two symbols they disagree about gives the packet back, and the suspects are the first twelve symbols instead |
| `FusionService.Bucket.constructor` | `insteonrf/fusion.py:769-779` | a bucket opened by its first copy |
| `FusionService.Bucket.Add` | `insteonrf/fusion.py:800-808` | one copy joins: times, reference bits, key and `has_good` move together |
| `FusionRuns.DeadlineBound` | `insteonrf/fusion.py:810-815` | however many copies extend it, a bucket's deadline is never past its opener's time plus the cap |
| `FusionPartition.RefusedIsLater` | `insteonrf/fusion.py:781-783` | a copy no earlier than a bucket's last that the bucket refuses is strictly later than everything in it |
| `FusionPartition.ClosedExactlyWhen` | `insteonrf/fusion.py:817-818` | a bucket is closed exactly when no copy from that time on could still join it |
| `FusionService.Bucket.Build` | `insteonrf/fusion.py:820-878` | the event of a bucket: views per receiver, closest, best verified copy or combination, hop range |
| `FusionEvents.ViewsMeaning` | `insteonrf/fusion.py:820-831` | an event's views are exactly its receivers, once each: how many copies, whether one is good, the loudest and the least travelled of them |
| `FusionEvents.ClosestMeaning` | `insteonrf/fusion.py:860-865` | no view outranks the closest, by hops left and then loudness, and it outranks all before it |
| `FusionEvents.BestGoodMeaning` | `insteonrf/fusion.py:838-850` | the copy a packet is taken from is good, no good copy is preferred to it and it is preferred to the good ones before it; there is none exactly when no copy is good |
| `FusionEvents.EventMeaning` | `insteonrf/fusion.py:820-878` | key, times and hop range those of its copies, attained at both ends; the packet that of the best good copy, else, exactly when combining is on and the copies combine, a combination that passes everything, else the first copy's |
| `FusionService.Fusion.Nearest` | `insteonrf/fusion.py:634-648` | the first of the closest open buckets a copy may join |
| `FusionService.Fusion.Add` | `insteonrf/fusion.py:579-622` | join, retire and reopen, count late, join by similarity or open: the new state in full |
| `FusionAdding.JoinsExactlyWhen` | `insteonrf/fusion.py:781-815` | a bucket takes a copy exactly when it was sent no more than the window before one of the bucket's copies, within the window and its extensions after one, and within the cap of every one |
| `FusionAdding.FinishedExactlyWhen` | `insteonrf/fusion.py:810-818` | and it is finished exactly when the time is past the window and its extensions after every copy, or past the cap after one |
| `FusionAdding.ReferenceIsLongest` | `insteonrf/fusion.py:800-808` | what a bucket is compared by is the first of its longest copies |
| `FusionAdding.AddExactly` | `insteonrf/fusion.py:579-648` | over runs, by quantifiers over buckets and finished events: a copy joins its message's open bucket if that takes it, else ends it and is placed anew; with no such bucket it is counted late exactly when it is verified and its message's latest remembered event lies within the window of it, and otherwise placed: in the closest bucket that may take it by similarity, or in one of its own |
| `FusionAdding.LateExactlyWhen` | `insteonrf/fusion.py:624-632` | so a verified copy with no open bucket under its message is late exactly when the message's latest remembered event has `first_seen - window <= when <= last_seen + window`, and otherwise ends up in an open bucket |
| `FusionService.Fusion.TryFold` | `insteonrf/fusion.py:689-714` | a repaired bucket is folded into a pending one, a live one, or counted late, in that order of preference |
| `FusionSettling.SettleExactly` | `insteonrf/fusion.py:673-718` | by quantifiers over buckets: a damaged bucket becomes an event exactly when its copies combine to no message, or to one of which no pending bucket takes its opening, no open bucket does, and no remembered event lies within the window of it; otherwise its copies go, in that order, to the first such pending bucket, to the open one, or to the late ones |
| `FusionService.Fusion.Emit` | `insteonrf/fusion.py:673-718` | damaged buckets settled in opening order, then the verified ones finished, events sorted by first sighting |
| `FusionSettling.EmitExactly` | `insteonrf/fusion.py:673-718` | the damaged buckets settled so one by one in order of opening, then what pends finished in that order, buckets opened together in the order they were taken |
| `FusionSettling.EventsExactly` | `insteonrf/fusion.py:718` | the events come back by first sighting, those first seen together in the order they were finished |
| `FusionService.Fusion.PopReady` | `insteonrf/fusion.py:661-671` | everything retired or past its deadline by the lateness allowance is emitted, old keys forgotten first |
| `FusionSettling.PopExactly` | `insteonrf/fusion.py:661-671` | which buckets a pop takes and which stay, what it forgets, and that what it takes is emitted so |
| `FusionService.Fusion.Flush` | `insteonrf/fusion.py:720-727` | everything is emitted |
| `FusionSettling.FlushExactly` | `insteonrf/fusion.py:720-727` | everything held is emitted so, and nothing is forgotten |
| `FusionProofs.BucketMeaning` | `insteonrf/fusion.py:800-808` | a bucket's fields are functions of its copies: earliest and latest time, key of the latest verified copy, whether there is one |
| `FusionProofs.AddKeepsInv` | `insteonrf/fusion.py:579-622` | every call keeps: slots have distinct keys, each its opener's, and every bucket is built from its copies |
| `FusionProofs.EmitKeepsInv` | `insteonrf/fusion.py:673-718` | emitting keeps the same, folding included |
| `FusionProofs.SlotKeyExactlyWhen` | `insteonrf/fusion.py:800-808` | a slot's key is its bucket's exactly when the bucket's latest verified copy, if any, is of its opener's message; always when a verified copy opened it |
| `FusionProofs.OneBucketPerMessage` | `insteonrf/fusion.py:634-648` | no message has two open buckets both opened by verified copies |
| `FusionKeys.SplitsExactlyWhen` | `insteonrf/fusion.py:579-623` | with no message in two open buckets, a copy makes two of one message exactly when it is not dropped as late, it is verified or opens a bucket of its own, and some open bucket carries its message under another key's slot |
| `FusionKeys.OneThroughoutExactlyWhen` | `insteonrf/fusion.py:579-671` | over any run whatever no message ever has two open buckets exactly when no added copy is of that kind |
| `FusionCorners.TwoBucketsForOneMessage` | `insteonrf/fusion.py:634-648` | for every complete sound packet heard by three receivers, once cut short: when the damaged copy opens the bucket, two open buckets carry the one message, one of them under another key's slot |
| `FusionRuns.Conservation` | `insteonrf/fusion.py:579-727` | over every run and for every way of picking sightings, those added are those in finished events, in open or ready buckets, or counted late |
| `FusionRuns.LateAndFaithful` | `insteonrf/fusion.py:673-718` | the program's `late` counts exactly the dropped copies per receiver, and every event is its bucket's |
| `FusionRuns.ReceiverConservation` | `insteonrf/fusion.py:820-831` | receiver by receiver, the copies in all events' views, those still held and `late` add up to what it sent |
| `FusionRuns.NothingOverstays` | `insteonrf/fusion.py:810-818` | whatever order copies arrive in, no bucket survives a pop later than its opener's time plus the cap and the lateness allowance; none stays ready |
| `FusionNumbering.NumberingOfRuns` | `insteonrf/fusion.py:744-763` | in finishing order each event is one past the previous of its message, 0 after the key was forgotten, and the closed table is exactly what is not forgotten |
| `FusionOrder.NumbersOfOneCall` | `insteonrf/fusion.py:661-718` | what a caller gets: for each message one pop or flush returns exactly the next consecutive numbers, and in the order returned they ascend exactly when no event overtakes an earlier-seen one, which only an event without a verified copy, or one re-keyed by a combination, brings about |
| `FusionOrder.VerifiedCallsAscend` | `insteonrf/fusion.py:661-718` | checkable before the call: when every bucket due has a verified copy and keeps its key, the numbers ascend |
| `FusionCorners.NumbersOutOfOrder` | `insteonrf/fusion.py:689-718` | for every complete sound packet, heard whole and more than 0.6 s later twice badly in stamped captures: a pop 2 s after that returns number 1 before number 0 |
| `FusionPartition.RunsAreTidy` | `insteonrf/fusion.py:579-671` | what any run of verified copies in on-air order keeps |
| `FusionPartition.Partition` | `insteonrf/fusion.py:579-671` | for such runs a message's copies are cut into consecutive buckets: intervals that share at most an instant, none longer than the cap, every copy in exactly one or counted late, a late one always within the window of a finished event of its message, so that one sent later starts an event or joins one; each event spans its bucket; not even an instant is shared while no message is forgotten and no event re-keyed |
| `FusionInstants.MeetsExactlyWhen` | `insteonrf/fusion.py:579-634` | after a verified copy no two buckets of a message share an instant exactly when none did before and it did not open a bucket, its message neither open nor late, at the very time a finished bucket of that message ended |
| `FusionInstants.StrictExactlyWhen` | `insteonrf/fusion.py:579-671` | for any run of verified copies in on-air order no two buckets of a message share even an instant exactly when no copy opened one at the instant another had ended |
| `FusionPartition.KeyKeptExactlyWhen` | `insteonrf/fusion.py:838-850` | a bucket of verified copies is finished under its own key exactly when combining is off, or some copy has possible hop fields, or the combination is none or of the same message |
| `FusionCorners.VerifiedBucketReKeyed` | `insteonrf/fusion.py:751-763` | for all packets, one verified with impossible hop fields and one sound, heard together by receivers: the first one's bucket is finished as the second one's message, and a third copy of the first is not recognised as late but opens another bucket of its message at the instant the first one ended |
| `Inject.PlmMemory.Note` | `insteonrf/inject.py:94-103` | remembers inbound frames by message, ignores others |
| `Inject.PlmMemory.Heard` | `insteonrf/inject.py:105-125` | symmetric in time around the report |
| `Inject.PlmMemory.ForgetOld` | `insteonrf/inject.py:127-130` | drops exactly the reports older than the window or ten seconds, whichever is more |
| `InjectProofs.ScreenExact` | `insteonrf/inject.py:284-313` | the checks on the event alone let through exactly what is enabled, may be spoken for and can be trusted |
| `Inject.SenderFromBytes` | `insteonrf/inject.py:180-187` | the sender is wire bytes 4 to 6, low byte first, or bytes 1 to 3 for a group broadcast, if the packet is that long |
| `InjectProofs.FirstObjection` | `insteonrf/inject.py:249-313` | an event refused on sight is refused for the first objection there is to it, and one without any passes under its sender's tier |
| `InjectProofs.RefusedExactly` | `insteonrf/inject.py:317-331` | one that passes is refused exactly for the modem's own report, its sender's limit or the minute's, the first of these that holds |
| `InjectProofs.LimitsAreTheLog` | `insteonrf/inject.py:325-331` | over ordered runs, a sender is refused exactly when something was published in its name less than the interval ago, and otherwise everyone is exactly when the last minute already holds the ceiling |
| `Inject.Injector.Consider` | `insteonrf/inject.py:275-349` | verdict, counters, both limit tables and `plm_saw_it`, from the state before |
| `InjectProofs.InjectsExactlyWhen` | `insteonrf/inject.py:275-349` | a frame goes out exactly when enabled and unshadowed for a sound unrepaired packet of an admissible sender in an enabled tier, unreported by the modem, within both limits; shadow mode changes nothing else |
| `InjectProofs.AlwaysRenderable` | `insteonrf/inject.py:333-336` | a screened packet always renders: that refusal is never the reason |
| `InjectProofs.FrameSpeaksForEvent` | `insteonrf/inject.py:333-349` | the published frame reads back as the event's own message |
| `InjectProofs.PublishedFrame` | `insteonrf/inject.py:275-349` | over runs every published frame carries in bytes 2 to 4, high byte first, the sender its limits were counted under, which is the packet's own and never the modem, and in the rest the packet's target, flags, commands and data |
| `InjectProofs.RateLimits` | `insteonrf/inject.py:325-358` | over every run whose clock does not go back, publications less than a minute apart number at most the ceiling and those of one sender keep the interval |
| `InjectProofs.SendersPaced` | `insteonrf/inject.py:325-349` | two published frames whose sender bytes agree are at least the interval apart |
| `InjectProofs.NoMinuteOverfull` | `insteonrf/inject.py:356-358` | no minute starting anywhere holds more publications than the ceiling |
| `InjectProofs.Accounting` | `insteonrf/inject.py:161-177` | considered is injected plus would-inject plus the refusals, each refusal under its own reason; shadow mode publishes nothing |
| `InjectProofs.PublishedIsSound` | `insteonrf/inject.py:249-349` | every publication of every run was admissible, trustworthy and decodes to its message key |
| `InjectProofs.SuppressionIsExact` | `insteonrf/inject.py:105-130` | an event is found heard exactly when the modem's latest report in the whole history is within the window and no older at the decision than the window or ten seconds, whichever is more |
| `InjectProofs.PromptEventsSuppressed` | `insteonrf/inject.py:105-130` | for events decided soon enough, exactly when the latest report is within the window |
| `InjectProofs.SawItExactly` | `insteonrf/inject.py:315-322` | `plm_saw_it` says just that, for the events that pass the checks on themselves and no others |
| `InjectProofs.OldReportForgotten` | `insteonrf/inject.py:127-130` | past that age a report within the window can already be forgotten |
| `Misses.MissTable.Note` | `insteonrf/mesh.py:111-151` | one event filed under exactly one total, its device and its receivers |
| `Misses.KindExactly` | `insteonrf/mesh.py:111-132` | an event is undecodable unless its packet verifies with possible hops; then the modem's own, an unknown sender's or a device's, by the address in its sender bytes |
| `Misses.CountersExact` | `insteonrf/mesh.py:111-151` | each total is the number of events of its kind ever noted |
| `Misses.ReceiverCountersExact` | `insteonrf/mesh.py:133-137` | `heard` and `sole` count exactly the messages a receiver heard, and heard alone |
| `Misses.DeviceCountersExact` | `insteonrf/mesh.py:138-145` | a device's four counters count exactly its messages, hits, misses and injections |
| `Misses.DeviceReceivers` | `insteonrf/mesh.py:146` | a device's receivers are exactly those that ever heard it |
| `Misses.DeviceLoudest` | `insteonrf/mesh.py:147-151` | a device's best signal is the loudest ever reported for it |
| `Misses.TotalsBalance` | `insteonrf/mesh.py:111-132` | every event is in exactly one total; no verified packet lacks a sender |
| `Misses.MessagesAreSightings` | `insteonrf/mesh.py:132-139` | `messages` is the sum of `heard_by_rf` |
| `Misses.CoverageBounds` | `insteonrf/mesh.py:111-151` | `sole` at most `heard` at most `messages`; hits plus misses, and injections, at most `heard_by_rf` |
| `Mesh.MeshService.Finish` | `insteonrf/mesh.py:416-435` | the modem's verdict asked now, the injector consulted unless its link is down, the table told |
| `MeshProofs.SettlingExactly` | `insteonrf/mesh.py:416-435` | an event is injected exactly when the injector is asked and says so, and seen exactly when the modem's report is near enough and has survived the sweep of an injector that looked; an injector that is not asked is untouched |
| `Mesh.MeshService.SettleFront` | `insteonrf/mesh.py:410-414` | settles from the front of the queue up to the first deadline to come |
| `Mesh.MeshService.Drain` | `insteonrf/mesh.py:395-414` | what fusion has ready is held for the grace period, what is due is settled |
| `Mesh.MeshService.Flush` | `insteonrf/mesh.py:437-443` | everything held is settled, in order |
| `Mesh.MeshService.Shutdown` | `insteonrf/mesh.py:452-456` | the end of the service: fusion flushed, its events due at once, everything settled |
| `MeshProofs.SettledExactlyOnce` | `insteonrf/mesh.py:395-443` | over every run the events fusion handed over are those settled followed by those held, in order, and `events` counts them |
| `MeshProofs.GraceKept` | `insteonrf/mesh.py:395-414` | a drain settles nothing before its deadline and, with a clock that does not go back, leaves nothing due; nothing waits longer than the grace period |
| `MeshProofs.ShutdownSettlesAll` | `insteonrf/mesh.py:437-456` | after the end nothing is held |
| `MeshProofs.InjectorEmbedded` | `insteonrf/mesh.py:416-435` | inside the service the injector goes through a run of its own |
| `MeshProofs.ServiceKeepsRateLimits` | `insteonrf/mesh.py:395-443` | so the rate limits and the accounting hold for everything the running service publishes |
| `MeshProofs.EndToEnd` | `insteonrf/mesh.py:381-443` | every copy a receiver delivers is in a settled event, in a held one, in a bucket, or counted late, and in only one of these |
| `MeshProofs.ServiceCoverage` | `insteonrf/mesh.py:111-151` | in the running service totals balance, every device's messages split exactly into hits and misses, and coverage shares one denominator |
| `Context.CommandTracker.Observe` | `insteonrf/context.py:47-75` | expiry, then a query recorded or a reply annotated and counted |
| `Context.TableIsHistory` | `insteonrf/context.py:47-75` | a query is in the table exactly when its latest occurrence is not followed by a packet stamped more than the window later, for stamps in any order |
| `Context.AnswerExact` | `insteonrf/context.py:60-70` | what a reply is told, from the full history, for stamps in any order |
| `Context.AnswerInOrder` | `insteonrf/context.py:47-75` | with stamps that do not go back, a reply gets the extended bit of the latest earlier query with swapped addresses and the same command within the window, or nothing |
| `Context.AnswerFromBytes` | `insteonrf/context.py:47-75` | from the bytes of the packets alone: only a direct or cleanup reply is told anything, and that is the EXT flag of the latest direct or cleanup query with its addresses swapped and its command, if that was no longer ago than the window and nothing stamped later than the window came between |
| `Context.CountersExact` | `insteonrf/context.py:60-70` | `resolved` counts the replies the history explains; both counters together count every complete reply once |
| `Cc1101.Chip.Hear` | `esphome/components/insteon_rf/cc1101.cpp:510-519` | the 64-byte FIFO as its environment: takes bytes while it has room, then overflows and takes no more |
| `Cc1101Proofs.HeardExactly` | `esphome/components/insteon_rf/cc1101.cpp:510-519` | it takes bytes in order while it has room, has overflowed exactly when it could not take one, at 64 bytes, and takes none after that |
| `Cc1101.InsteonRFCC1101.constructor` | `esphome/components/insteon_rf/cc1101.cpp:131-135` | idle, nothing captured |
| `Cc1101.InsteonRFCC1101.RestartRx` | `esphome/components/insteon_rf/cc1101.cpp:407-416` | FIFO flushed, alignment lost, counters of the capture reset |
| `Cc1101.InsteonRFCC1101.EmptyFifo` | `esphome/components/insteon_rf/cc1101.cpp:538-570` | the read loop, with bytes landing during every read; it terminates |
| `Cc1101.InsteonRFCC1101.Drain` | `esphome/components/insteon_rf/cc1101.cpp:510-572` | overflow, stall or read, and the new state in full |
| `Cc1101.InsteonRFCC1101.EndCaptureEarly` | `esphome/components/insteon_rf/cc1101.cpp:384-405` | publishes what is in hand if it is long enough, then restarts |
| `Cc1101Proofs.Reassembly` | `esphome/components/insteon_rf/cc1101.cpp:510-572` | over every interleaving, completed captures, the current one and the FIFO are exactly the bytes received since the last restart, and the FIFO is never empty while a capture is under way |
| `Cc1101Proofs.CapturesAreChunks` | `esphome/components/insteon_rf/cc1101.cpp:564-569` | the k-th completed capture is the k-th chunk of `capture_bytes` bytes of the stream |
| `Cc1101Proofs.NeverReadEmpty` | `esphome/components/insteon_rf/cc1101.cpp:555-563` | after each single read of a drain a byte is left or the capture is complete |
| `Cc1101Proofs.DrainEmpties` | `esphome/components/insteon_rf/cc1101.cpp:538-571` | a drain that does not restart leaves at most one byte more than arrived meanwhile |
| `Cc1101Proofs.DrainCompletes` | `esphome/components/insteon_rf/cc1101.cpp:538-571` | after it exactly those captures are complete whose last byte had come when it looked |
| `Cc1101Proofs.RestartsCounted` | `esphome/components/insteon_rf/cc1101.cpp:510-536` | every restart is counted once: as an overflow if there was one, else as a stall, or as a quiet end |
| `Cc1101Proofs.RestartsClean` | `esphome/components/insteon_rf/cc1101.cpp:407-416` | after a restart the chip is empty and receives again, nothing of what was under way is left, and what was queued stays |
| `Cc1101Stamps.StallExact` | `esphome/components/insteon_rf/cc1101.cpp:522-536` | over every run the stall test fires exactly when something is under way or waiting, some drain has already seen every byte received, and the first one to do so is longer ago than the limit |
| `Cc1101Stamps.StampsExact` | `esphome/components/insteon_rf/cc1101.cpp:538-549` | over every run each completed capture, however many drains it took, and the one under way are stamped by the first drain that read from them: its time less the air time of the bytes received from the capture's first one on until it looked |
| `Cc1101Stamps.EarlyStampExact` | `esphome/components/insteon_rf/cc1101.cpp:384-405` | what an early end publishes carries such a stamp whenever some of it had been read, as the task requires before it ends one early; in general exactly when a drain had seen a byte of it |
| `Cc1101Stamps.AirTimeExactly` | `esphome/components/insteon_rf/cc1101.cpp:538-549` | air time is the whole microseconds of that many bytes at 9124 symbols a second |
| `Cc1101Stamps.AgoExactly` | `esphome/components/insteon_rf/cc1101.cpp:522-549` | time passed on the wrapping 32-bit clock is what has to be added to the earlier time to come to now |
| `Cc1101Proofs.EarlyAligned` | `esphome/components/insteon_rf/cc1101.cpp:384-405` | an early end takes the bytes that follow the completed captures |
| `Cc1101Proofs.NothingLostSilently` | `esphome/components/insteon_rf/cc1101.cpp:564-569` | every completed capture is consumed, queued or counted as dropped, in order when none is dropped, and between 32 and `capture_bytes` long |
| `Cc1101Proofs.QueuedExactly` | `esphome/components/insteon_rf/cc1101.cpp:564-569` | the captures a step completes go on the queue in their order as long as it holds fewer than eight, and only the rest is dropped and counted |
| `Gate.ManchesterGateOk` | `esphome/components/insteon_rf/insteon_rf.cpp:24-76` | giving up early is the same as comparing the total of impossible pairs with the budget |
| `Gate.ErrorsBoundViolations` | `esphome/components/insteon_rf/insteon_rf.cpp:57-74` | wrong symbols cost at most one violation each |
| `Gate.OneFlip` | `esphome/components/insteon_rf/insteon_rf.cpp:57-74` | one flipped symbol moves the total by at most one either way |
| `Gate.PacketClean` | `esphome/components/insteon_rf/insteon_rf.cpp:31-46` | an encoded packet's FIFO content has no violation in any of its frames, in either polarity, with any tail |
| `Gate.PacketsPass` | `esphome/components/insteon_rf/insteon_rf.cpp:24-76` | a packet with at least `manchester_gate` frames, in either polarity, followed by anything, with no more wrong symbols than the budget, passes |
| `Gate.TurnedAwayExactly` | `esphome/components/insteon_rf/insteon_rf.cpp:24-76` | a capture is turned away exactly when it is shorter than a marker and a byte, or has more pairs that should differ and do not, or the other way round, than the budget, among the first byte's and those of the next whole frames up to the gate's number |
| `Base64.EncodeCapture` | `esphome/components/insteon_rf/insteon_rf.cpp:165-178` | the hand-written loop computes the encoding, padding included |
| `Base64.DecodeInvertsEncode` | `esphome/components/insteon_rf/insteon_rf.cpp:165-178` | a decoder after section 4 of RFC 4648 gives back any capture of any length |
| `Base64.SextetsOfBytes` | `esphome/components/insteon_rf/insteon_rf.cpp:165-178` | three bytes are cut into four sextets from the most significant bit down |
| `Base64.LetterExactly` | `esphome/components/insteon_rf/insteon_rf.cpp:165-178` | each written as its letter of the alphabet |
| `BitStrings.BytesRoundTrip` | `insteonrf/radio/mqtt.py:74-83` | bits through bytes come back zero-padded to a byte; bytes through bits come back as they were |
| `BitStrings.SymbolAt` | `esphome/components/insteon_rf/insteon_rf.cpp:26` | the symbol the firmware picks out is the one the host expands |
| `BitStrings.SymbolsOfByte` | `insteonrf/radio/mqtt.py:74-76` | a byte's symbols are its binary digits, most significant first |
| `Transport.HeaderNear` | `insteonrf/monitor.py:241-247` | the exact header nearest the correlator's index, the earlier of two equally near |
| `Transport.MqttPublisher.Snap` | `insteonrf/monitor.py:241-247` | found by going through the candidates within the snap distance |
| `Transport.MqttPublisher.PublishCapture` | `insteonrf/monitor.py:201-281` | header chosen, burst cut, message built, capture counted |
| `Transport.QuantisationError` | `insteonrf/radio/mqtt.py:86-94` | quantising a confidence is off by at most half a step and keeps the sign of any larger one |
| `Transport.QuantisedExactly` | `insteonrf/radio/mqtt.py:86-94` | to the nearest of the steps from -127 to 127, the even one of two equally near, anything beyond 1 to the last |
| `Transport.SignedByteExactly` | `insteonrf/radio/mqtt.py:86-94` | a step is sent as two's complement |
| `Transport.FromPayloadExactly` | `insteonrf/radio/mqtt.py:144-217` | a message is taken unless its bits are no base64, none or more than 4096 bytes; the header goes in front unless there is one, and confidence counts only with a byte for every bit |
| `TransportProofs.BurstRoundTrip` | `insteonrf/radio/mqtt.py:103-120` | the consumer rebuilds header, rest and padding exactly when what follows the cut does not begin with a header |
| `TransportProofs.CutIsExact` | `insteonrf/monitor.py:238-262` | a header found near the index or by search is the one the burst has there |
| `TransportProofs.NearestHeaderCut` | `insteonrf/monitor.py:238-247` | with an exact header within eight symbols of the correlator's index the burst is cut at the nearest, the earlier of two equally near, in its own polarity |
| `TransportProofs.FirstHeaderCut` | `insteonrf/monitor.py:253-257` | with no index inside the burst it is cut at its first exact header of either polarity, if there is one |
| `TransportProofs.DamagedHeaderKept` | `insteonrf/monitor.py:248-257` | with no exact header around the correlator's index the burst is cut there, and a header with at most seven wrong symbols keeps its polarity |
| `TransportProofs.ExactBurst` | `insteonrf/monitor.py:258-262` | and then what is rebuilt is the burst from that header on |
| `TransportProofs.ConfidenceAligned` | `insteonrf/radio/mqtt.py:203-217` | confidence comes back index for index with the burst it was published with: the header certain, each symbol after it its own in the burst, quantised, the padding zero; it survives exactly when it covered the burst |
| `TransportProofs.EncodedCutIsClean` | `insteonrf/monitor.py:221-262` | for encoded packets the side condition holds wherever they are cut |
| `TransportProofs.PacketsSurviveTransport` | `insteonrf/radio/mqtt.py:200-217` | encoded packets in either polarity, published with or without the correlator's index, arrive and parse to exactly those packets; with an index near the k-th header, to those from the k-th on |
| `TransportProofs.BoardPacketParses` | `esphome/components/insteon_rf/insteon_rf.cpp:160-207` | a board's capture of a packet in either polarity, with anything after it, parses with that packet first |
| `Streaming.Pump` | `insteonrf/radio/sdr.py:384-412` | whole pairs numbered by their place in the stream, an odd byte carried, what does not fit counted as dropped |
| `Streaming.DroppedCounted` | `insteonrf/radio/sdr.py:384-412` | every chunk is put on the queue or counted, and the count is of the puts that found it full |
| `Streaming.IterNumpy` | `insteonrf/radio/sdr.py:292-335` | passes over a hop and an overlap, with gaps and the end finishing what is buffered |
| `Streaming.ItemsInPlace` | `insteonrf/radio/sdr.py:384-410` | however reads split pairs and whatever is dropped, each chunk holds the bytes of its place in the stream, in order |
| `Streaming.PassesPartition` | `insteonrf/radio/sdr.py:292-357` | the starts claimed by successive passes are ordered and disjoint and cover exactly the delivered samples; each pass works on the very samples it claims; a non-final one has the whole overlap after every start |
| `Streaming.PassesPaced` | `insteonrf/radio/sdr.py:292-335` | a final pass is followed by a gap or by nothing; any other had a hop and an overlap in hand and the next begins where it left off; no more than that is held back from one chunk to the next |
| `Streaming.JudgedOnce` | `insteonrf/radio/sdr.py:337-357` | a burst is judged by exactly one pass, and kept by it exactly when it has a header or does not run past the end of what a pass with more to come sees |
| `Streaming.LosslessClaimsAll` | `insteonrf/radio/sdr.py:377-403` | with nothing dropped every whole sample is claimed |

## Left out

- Rounding in float32 confidence sums, in timestamps and in the quantiser's product; all are exact reals here.
- `ClockSkew`, which estimates each receiver's clock error: sighting times are taken as already corrected.
- `insteonrf/dsp.py` and the C demodulator: a burst is given bits and confidence.
- A sighting without a timestamp: `Sighting.when` reads the clock anew at each access, while here it is of one fixed time; everything the mesh receives has one.
- MQTT clients, JSON text, topics, threads, files and signals: only the contents of a message are modelled, with its sync word as a number.
- Plausibility checks on a message's timestamp, receiver name and RSSI in `Capture.from_payload`.
- Base64 text a firmware or publisher would not produce; `Base64.Decode` is a reference decoder, not Python's.
- SPI, register programming, watchdogs, scans, RSSI and frequency-offset readings of the radio.
- Command names, summaries, reports, `ext_data` and the other text renderings.
- `insteonrf/allon.py`, which watches every burst for a group-0 On and writes out what surrounds it, and the monitor's `Deduper`, which folds a packet's repeats into one log record: both only read packets for reports, and nothing modelled here depends on what they keep.
- Object identity of `DeviceMisses` and `FusedEvent`, which are values here; `plm_saw_it` is what a call returns.
- What a CC1101 FIFO holds after an overflow: the model's chip refuses further bytes until it is restarted, and the code restarts before reading it again except in a drain already under way.
- Framing.ParseBits: takes `min_bytes` of at least 1; with 0, a header without a single frame would yield a packet without a flags byte.
- Sightings.SightingsFromCapture: takes `min_bytes` of at least 1, for the same reason.
- FusionService.Bucket.Build: an event has no SNR, which is not part of a sighting here.
- FusionEvents.ViewsMeaning: a receiver's view has no SNR either.
- FusionService.Fusion.Add: neither corrects a receiver's clock nor records how late a capture arrived; the lags feed a report only.
- FusionPartition.Partition: is about runs whose copies verify and come in on-air order; the other runs have `FusionRuns.Conservation` and `FusionRuns.NothingOverstays`.
- FusionNumbering.NumberingOfRuns: is about finishing order, by which the code counts; the order one call returns is `FusionOrder.NumbersOfOneCall`.
- TransportProofs.PacketsSurviveTransport: with a correlator's index it covers indexes within the snap distance of some packet's header; any other index makes the publisher cut where no packet begins.
- Cc1101.InsteonRFCC1101.EmptyFifo: takes no RSSI or frequency-offset reading at the start of a capture; those come from chip registers outside the byte stream.
- Transport.MqttPublisher.PublishCapture: models the sync word, the bits and the confidence of a message; receiver name, sequence number, time, length, RSSI and SNR go along as they are and play no part in rebuilding the burst.
- Cc1101Stamps.StampsExact: is modulo the 32-bit microsecond clock, and takes every byte as fully arrived when the drain looks.
- Inject.Injector.Consider: the outcome is counted after the checks rather than in each branch, and the callback is the verdict's frame.
